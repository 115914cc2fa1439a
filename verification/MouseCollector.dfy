/**
 The pointer statistics of the browser collector. Coordinates and times (in ms) are real numbers; `Math.hypot` and
 `Math.log2` are functions the caller provides, `hypot` known by its square.
 */
module MouseCollector {
  import opened Basics
  import opened Geometry
  import opened Wrappers

  const PAUSE_MS := 100.0
  const MAX_CLICKS := 200

  datatype Sample = Sample(x: real, y: real, t: real)

  datatype Click = Click(precision: real, fittsIndex: real, movementTime: real)

  datatype Rect = Rect(left: real, top: real, width: real, height: real)

  function Last<T>(s: seq<T>): T
    requires s != []
  {
    s[|s| - 1]
  }

  function Front<T>(s: seq<T>): (f: seq<T>)
    requires s != []
    ensures |f| == |s| - 1 && s == f + [Last(s)]
  {
    s[..|s| - 1]
  }

  // -- Recording -----------------------------------------------------------------------------------

  /** The samples of a trace that are later than every sample accepted before. */
  function Accepted(trace: seq<Sample>): seq<Sample> {
    if trace == [] then []
    else
      var before := Accepted(Front(trace));
      if before != [] && Last(trace).t <= Last(before).t then before else before + [Last(trace)]
  }

  function Window<T>(samples: seq<T>, max: int): seq<T> {
    if |samples| > max then samples[if max < 0 then |samples| else |samples| - max..] else samples
  }

  /** The first sample of the movement that the last sample belongs to. */
  function StrokeStart(samples: seq<Sample>): Option<Sample> {
    if samples == [] then None
    else if |samples| == 1 || Last(samples).t - Last(Front(samples)).t > PAUSE_MS then Some(Last(samples))
    else StrokeStart(Front(samples))
  }

  ghost predicate Increasing(samples: seq<Sample>) {
    forall i, j | 0 <= i < j < |samples| :: samples[i].t < samples[j].t
  }

  /** Accepted samples advance in time, and every rejected one is not later than an accepted one before it. */
  lemma {:induction false} AcceptedIncreases(trace: seq<Sample>)
    ensures Increasing(Accepted(trace))
    ensures forall s | s in trace :: s in Accepted(trace) || (Accepted(trace) != [] && s.t <= Last(Accepted(trace)).t)
  {
    if trace != [] {
      AcceptedIncreases(Front(trace));
      assert forall s | s in trace :: s in Front(trace) || s == Last(trace);
    }
  }

  lemma WindowAppend(samples: seq<Sample>, max: int, s: Sample)
    requires max > 0
    ensures
      var w := Window(samples, max);
      && (w == [] <==> samples == []) && (w != [] ==> Last(w) == Last(samples))
      && Window(samples + [s], max) == (if |w| < max then w + [s] else (w + [s])[1..])
  {
  }

  lemma AcceptedAppend(trace: seq<Sample>, s: Sample)
    ensures
      var before := Accepted(trace);
      Accepted(trace + [s]) == if before != [] && s.t <= Last(before).t then before else before + [s]
  {
    assert Front(trace + [s]) == trace;
  }

  lemma StrokeStartAppend(samples: seq<Sample>, s: Sample)
    ensures StrokeStart(samples + [s])
         == if samples == [] || s.t - Last(samples).t > PAUSE_MS then Some(s) else StrokeStart(samples)
  {
    assert Front(samples + [s]) == samples;
  }

  // -- Strokes and pauses --------------------------------------------------------------------------

  predicate PauseBetween(a: Sample, b: Sample) {
    b.t - a.t > PAUSE_MS
  }

  /** The samples cut at every pause. */
  function Strokes(samples: seq<Sample>): (r: seq<seq<Sample>>)
    ensures samples == [] <==> r == []
    ensures forall i | 0 <= i < |r| :: r[i] != []
    ensures r != [] ==> Last(Last(r)) == Last(samples)
  {
    if samples == [] then []
    else
      var before := Strokes(Front(samples));
      if before == [] || PauseBetween(Last(Front(samples)), Last(samples)) then before + [[Last(samples)]]
      else Front(before) + [Last(before) + [Last(samples)]]
  }

  function Concat(strokes: seq<seq<Sample>>): seq<Sample> {
    if strokes == [] then [] else Concat(Front(strokes)) + Last(strokes)
  }

  /** Inside a stroke there is no pause. */
  ghost predicate Steady(stroke: seq<Sample>) {
    forall i | 0 < i < |stroke| :: !PauseBetween(stroke[i - 1], stroke[i])
  }

  lemma ConcatAppend(strokes: seq<seq<Sample>>, last: seq<Sample>)
    ensures Concat(strokes + [last]) == Concat(strokes) + last
  {
    assert Front(strokes + [last]) == strokes;
  }

  lemma {:induction false} ConcatStrokes(samples: seq<Sample>)
    ensures Concat(Strokes(samples)) == samples
  {
    hide PauseBetween, Concat;
    if samples == [] {
      ConcatNothing();
    } else {
      var before, last := Strokes(Front(samples)), Last(samples);
      ConcatStrokes(Front(samples));
      if before == [] || PauseBetween(Last(Front(samples)), last) {
        ConcatAppend(before, [last]);
      } else {
        ConcatAppend(Front(before), Last(before) + [last]);
        ConcatAppend(Front(before), Last(before));
      }
    }
  }

  lemma ConcatNothing()
    ensures Concat([]) == []
  {
  }

  lemma {:induction false} StrokesAreCut(samples: seq<Sample>)
    ensures forall i | 0 <= i < |Strokes(samples)| :: Steady(Strokes(samples)[i])
    ensures forall i | 0 < i < |Strokes(samples)| :: PauseBetween(Last(Strokes(samples)[i - 1]), Strokes(samples)[i][0])
  {
    hide PauseBetween;
    if samples != [] {
      var before, last := Strokes(Front(samples)), Last(samples);
      StrokesAreCut(Front(samples));
      if before != [] && !PauseBetween(Last(Front(samples)), last) {
        var r := Strokes(samples);
        forall i | 0 < i < |r| ensures PauseBetween(Last(r[i - 1]), r[i][0]) {
          assert r[i - 1] == before[i - 1] && r[i][0] == before[i][0];
        }
      }
    }
  }

  /** Strokes and pauses partition the samples: every sample is in one stroke, in order; strokes hold no pause; and
      between two strokes there is one. */
  lemma {:induction false} StrokesPartition(samples: seq<Sample>)
    ensures
      var strokes := Strokes(samples);
      && Concat(strokes) == samples
      && (forall i: nat, j: nat | i < |strokes| && 0 < j < |strokes[i]| :: strokes[i][j].t <= strokes[i][j - 1].t + 100.0)
      && forall i | 0 < i < |strokes| :: strokes[i][0].t > Last(strokes[i - 1]).t + 100.0
  {
    ConcatStrokes(samples);
    StrokesAreCut(samples);
    hide Strokes, Concat;
    var strokes: seq<seq<Sample>> := Strokes(samples);
    forall i: nat, j: nat | i < |strokes| && 0 < j < |strokes[i]| ensures strokes[i][j].t <= strokes[i][j - 1].t + 100.0 {
      assert Steady(strokes[i]);
    }
  }

  /** A movement starts where the last stroke does. */
  lemma {:induction false} MovementIsLastStroke(samples: seq<Sample>)
    requires samples != []
    ensures StrokeStart(samples) == Some(Last(Strokes(samples))[0])
  {
    if |samples| > 1 {
      MovementIsLastStroke(Front(samples));
    } else {
      assert Strokes(Front(samples)) == [];
    }
  }

  function Duration(samples: seq<Sample>): real
    requires samples != []
  {
    Last(samples).t - samples[0].t
  }

  function StrokeTime(strokes: seq<seq<Sample>>): real
    requires forall i | 0 <= i < |strokes| :: strokes[i] != []
  {
    if strokes == [] then 0.0 else StrokeTime(Front(strokes)) + Duration(Last(strokes))
  }

  function PauseTime(samples: seq<Sample>): real {
    if |samples| < 2 then 0.0
    else
      var a, b := Last(Front(samples)), Last(samples);
      PauseTime(Front(samples)) + if PauseBetween(a, b) then b.t - a.t else 0.0
  }

  /** Stroke time and pause time add up to the whole duration. */
  lemma {:induction false} TimesAddUp(samples: seq<Sample>)
    requires samples != []
    ensures StrokeTime(Strokes(samples)) + PauseTime(samples) == Duration(samples)
  {
    var last := Last(samples);
    if |samples| > 1 {
      var before := Strokes(Front(samples));
      TimesAddUp(Front(samples));
      if PauseBetween(Last(Front(samples)), last) {
        assert Front(before + [[last]]) == before;
      } else {
        assert Front(Front(before) + [Last(before) + [last]]) == Front(before);
      }
    }
  }

  // -- Straightness --------------------------------------------------------------------------------

  function Distance(h: (real, real) -> real, a: Sample, b: Sample): real {
    h(b.x - a.x, b.y - a.y)
  }

  function PathLength(h: (real, real) -> real, stroke: seq<Sample>): real {
    if |stroke| < 2 then 0.0
    else PathLength(h, Front(stroke)) + Distance(h, Last(Front(stroke)), Last(stroke))
  }

  /** The direct distance is never longer than the path. */
  lemma {:induction false} DirectIsShortest(h: (real, real) -> real, stroke: seq<Sample>)
    requires IsHypot(h) && stroke != []
    ensures 0.0 <= Distance(h, stroke[0], Last(stroke)) <= PathLength(h, stroke)
  {
    hide Sq;
    var a, c := stroke[0], Last(stroke);
    assert h(c.x - a.x, c.y - a.y) >= 0.0;
    if |stroke| == 1 {
      assert Sq(h(0.0, 0.0)) == Sq(0.0) + Sq(0.0);
      SqZero(0.0);
      SqZero(h(0.0, 0.0));
    } else {
      var b := Last(Front(stroke));
      DirectIsShortest(h, Front(stroke));
      TriangleInequality(h, b.x - a.x, b.y - a.y, c.x - b.x, c.y - b.y);
      assert b.x - a.x + (c.x - b.x) == c.x - a.x && b.y - a.y + (c.y - b.y) == c.y - a.y;
    }
  }

  /** The entry of one finished stroke, if it moved and has three samples. */
  function StrokeStraightness(h: (real, real) -> real, stroke: seq<Sample>): seq<real>
    requires stroke != []
  {
    if |stroke| >= 3 && PathLength(h, stroke) > 0.0
    then [Distance(h, stroke[0], Last(stroke)) / PathLength(h, stroke)]
    else []
  }

  function Straightness(h: (real, real) -> real, strokes: seq<seq<Sample>>): seq<real>
    requires forall i | 0 <= i < |strokes| :: strokes[i] != []
  {
    if strokes == [] then [] else Straightness(h, Front(strokes)) + StrokeStraightness(h, Last(strokes))
  }

  ghost predicate InUnit(values: seq<real>) {
    forall i | 0 <= i < |values| :: 0.0 <= values[i] <= 1.0
  }

  lemma {:induction false} SumInRange(values: seq<real>)
    requires InUnit(values)
    ensures 0.0 <= Sum(values) <= |values| as real
  {
    if values != [] {
      SumInRange(Front(values));
    }
  }

  lemma MeanInUnit(values: seq<real>)
    requires InUnit(values)
    ensures 0.0 <= Mean(values) <= 1.0
  {
    if values != [] {
      SumInRange(values);
      QuotientInUnit(Sum(values), |values| as real);
    }
  }

  lemma {:induction false} EveryStraightnessInUnit(h: (real, real) -> real, strokes: seq<seq<Sample>>)
    requires IsHypot(h) && forall i | 0 <= i < |strokes| :: strokes[i] != []
    ensures InUnit(Straightness(h, strokes))
  {
    hide PathLength, Distance;
    if strokes != [] {
      EveryStraightnessInUnit(h, Front(strokes));
      var stroke := Last(strokes);
      DirectIsShortest(h, stroke);
      if PathLength(h, stroke) > 0.0 {
        QuotientInUnit(Distance(h, stroke[0], Last(stroke)), PathLength(h, stroke));
      }
    }
  }

  /** For any samples whatever the straightness index lies between 0 and 1. */
  lemma {:induction false} StraightnessIndexInUnit(h: (real, real) -> real, samples: seq<Sample>)
    requires IsHypot(h)
    ensures 0.0 <= Mean(Straightness(h, Strokes(samples))) <= 1.0
  {
    EveryStraightnessInUnit(h, Strokes(samples));
    MeanInUnit(Straightness(h, Strokes(samples)));
  }

  // -- Straight strokes ------------------------------------------------------------------------------

  /** The samples lie on the segment from the first to the last one, in their order: w says how far along. */
  ghost predicate InOrderOnSegment(stroke: seq<Sample>, w: seq<real>)
    requires stroke != []
  {
    && |w| == |stroke| && w[0] == 0.0 && (forall i | 0 < i < |w| :: w[i - 1] <= w[i])
    && forall i | 0 <= i < |stroke| ::
         && stroke[i].x - stroke[0].x == Mul(w[i], Last(stroke).x - stroke[0].x)
         && stroke[i].y - stroke[0].y == Mul(w[i], Last(stroke).y - stroke[0].y)
  }

  lemma {:induction false} SegmentPath(h: (real, real) -> real, stroke: seq<Sample>, w: seq<real>, n: nat)
    requires IsHypot(h) && 0 < n <= |stroke| && InOrderOnSegment(stroke, w)
    ensures PathLength(h, stroke[..n]) == Mul(w[n - 1], Distance(h, stroke[0], Last(stroke)))
  {
    hide Mul, IsHypot;
    var dx, dy := Last(stroke).x - stroke[0].x, Last(stroke).y - stroke[0].y;
    if n == 1 {
      MulZero(h(dx, dy));
    } else {
      SegmentPath(h, stroke, w, n - 1);
      assert Front(stroke[..n]) == stroke[..n - 1];
      var step := w[n - 1] - w[n - 2];
      StepAlong(step, w[n - 2], dx);
      StepAlong(step, w[n - 2], dy);
      StepAlong(step, w[n - 2], h(dx, dy));
      HypotScales(h, step, dx, dy);
      assert stroke[n - 1].x - stroke[n - 2].x == Mul(step, dx) && stroke[n - 1].y - stroke[n - 2].y == Mul(step, dy);
    }
  }

  lemma MulZero(a: real)
    ensures Mul(0.0, a) == 0.0 && Mul(1.0, a) == a
  {
  }

  lemma StepAlong(step: real, w: real, d: real)
    ensures Mul(w + step, d) == Mul(w, d) + Mul(step, d)
  {
  }

  /** A factor that keeps a displacement is one, unless the displacement is none. */
  lemma KeepsLength(h: (real, real) -> real, w: real, x: real, y: real)
    requires IsHypot(h) && x == Mul(w, x) && y == Mul(w, y)
    ensures h(x, y) == 0.0 || w == 1.0
    ensures Mul(w, h(x, y)) == h(x, y)
  {
    HypotOfZero(h, x, y);
    MulZero(h(x, y));
    if h(x, y) != 0.0 {
      KeepsNumber(w, x);
      KeepsNumber(w, y);
    }
  }

  lemma KeepsNumber(w: real, x: real)
    requires x == Mul(w, x)
    ensures x == 0.0 || w == 1.0
  {
    assert Mul(w - 1.0, x) == 0.0;
  }

  /** Of two equal directions, the share of the first in the sum. */
  lemma ShareOfSum(a: real, b: real, u: real, v: real, share: real)
    requires a + b > 0.0 && share == a / (a + b) && Mul(b, u) == Mul(a, v)
    ensures Mul(share, u + v) == u
  {
    assert (a + b) * share == a;
    assert (a + b) * (share * (u + v)) == a * (u + v) == a * u + a * v == (a + b) * u;
    SameFactor(a + b, share * (u + v), u);
  }

  lemma SameFactor(p: real, a: real, b: real)
    requires p > 0.0 && p * a == p * b
    ensures a == b
  {
    assert Mul(p, a) == Mul(p, b);
    CancelFactor(p, a, b);
    CancelFactor(p, b, a);
  }

  lemma MulAssociates(a: real, b: real, c: real)
    ensures Mul(Mul(a, b), c) == Mul(b, Mul(a, c))
  {
  }

  lemma {:induction false} SegmentOf(h: (real, real) -> real, stroke: seq<Sample>) returns (w: seq<real>)
    requires IsHypot(h) && stroke != [] && Distance(h, stroke[0], Last(stroke)) == PathLength(h, stroke)
    ensures InOrderOnSegment(stroke, w)
  {
    if |stroke| == 1 {
      w := [0.0];
      MulZero(0.0);
    } else {
      var front, a, b, c := Front(stroke), stroke[0], Last(Front(stroke)), Last(stroke);
      var ux, uy, vx, vy := b.x - a.x, b.y - a.y, c.x - b.x, c.y - b.y;
      DirectIsShortest(h, front);
      TriangleInequality(h, ux, uy, vx, vy);
      assert ux + vx == c.x - a.x && uy + vy == c.y - a.y;
      var before := SegmentOf(h, front);
      SameDirection(h, ux, uy, vx, vy);
      w := ExtendSegment(h, stroke, before);
    }
  }

  lemma ExtendSegment(h: (real, real) -> real, stroke: seq<Sample>, before: seq<real>) returns (w: seq<real>)
    requires IsHypot(h) && |stroke| >= 2 && InOrderOnSegment(Front(stroke), before)
    requires
      var a, b, c := stroke[0], Last(Front(stroke)), Last(stroke);
      var lu, lv := Distance(h, a, b), Distance(h, b, c);
      && Mul(lv, b.x - a.x) == Mul(lu, c.x - b.x) && Mul(lv, b.y - a.y) == Mul(lu, c.y - b.y)
    ensures InOrderOnSegment(stroke, w)
  {
    var a, b, c := stroke[0], Last(Front(stroke)), Last(stroke);
    var ux, uy, vx, vy := b.x - a.x, b.y - a.y, c.x - b.x, c.y - b.y;
    var lu, lv := h(ux, uy), h(vx, vy);
    assert lu >= 0.0 && lv >= 0.0;
    var front, n := Front(stroke), |stroke| - 1;
    KeepsLength(h, before[n - 1], ux, uy);
    hide Mul, IsHypot;
    if lu + lv > 0.0 {
      var share := lu / (lu + lv);
      QuotientInUnit(lu, lu + lv);
      ShareOfSum(lu, lv, ux, vx, share);
      ShareOfSum(lu, lv, uy, vy, share);
      w := Scaled(before, share) + [1.0];
      forall i | 0 <= i < |stroke|
        ensures stroke[i].x - a.x == Mul(w[i], c.x - a.x) && stroke[i].y - a.y == Mul(w[i], c.y - a.y)
      {
        if i < n {
          assert front[i] == stroke[i] && w[i] == Mul(share, before[i]);
          MulAssociates(share, before[i], ux + vx);
          MulAssociates(share, before[i], uy + vy);
          assert c.x - a.x == ux + vx && c.y - a.y == uy + vy;
        } else {
          MulZero(c.x - a.x);
          MulZero(c.y - a.y);
        }
      }
      ScaledOrder(before, share, lu);
    } else {
      HypotOfZero(h, ux, uy);
      HypotOfZero(h, vx, vy);
      w := seq(|stroke|, _ => 0.0);
      MulZero(0.0);
      forall i | 0 <= i < |stroke| ensures stroke[i].x == a.x && stroke[i].y == a.y {
        if i < n {
          assert front[i] == stroke[i];
          TimesNothing(before[i]);
        }
      }
    }
  }

  lemma TimesNothing(w: real)
    ensures Mul(w, 0.0) == 0.0
  {
  }

  function Scaled(w: seq<real>, share: real): (r: seq<real>)
    ensures |r| == |w|
  {
    seq(|w|, i requires 0 <= i < |w| => Mul(share, w[i]))
  }

  lemma ScaledOrder(before: seq<real>, share: real, lu: real)
    requires before != [] && before[0] == 0.0 && forall i | 0 < i < |before| :: before[i - 1] <= before[i]
    requires 0.0 <= share <= 1.0 && (before[|before| - 1] == 1.0 || share == 0.0)
    ensures
      var w := Scaled(before, share) + [1.0];
      w[0] == 0.0 && forall i | 0 < i < |w| :: w[i - 1] <= w[i]
  {
    var w := Scaled(before, share) + [1.0];
    forall i | 0 < i < |w| ensures w[i - 1] <= w[i] {
      if i < |before| {
        MulNonNegative(share, before[i] - before[i - 1]);
        StepUp(share, before[i - 1], before[i]);
      }
    }
  }

  lemma StepUp(s: real, a: real, b: real)
    ensures Mul(s, b) - Mul(s, a) == Mul(s, b - a)
  {
  }

  ghost predicate Straight(stroke: seq<Sample>)
    requires stroke != []
  {
    exists w :: InOrderOnSegment(stroke, w)
  }

  /** The direct distance of a stroke equals its path exactly if its samples lie in order on a segment. */
  lemma StraightExactlyWhen(h: (real, real) -> real, stroke: seq<Sample>)
    requires IsHypot(h) && stroke != []
    ensures Distance(h, stroke[0], Last(stroke)) == PathLength(h, stroke) <==> Straight(stroke)
  {
    hide IsHypot, PathLength, Distance, InOrderOnSegment;
    if Distance(h, stroke[0], Last(stroke)) == PathLength(h, stroke) {
      var w := SegmentOf(h, stroke);
    }
    if w :| InOrderOnSegment(stroke, w) {
      SegmentIsStraight(h, stroke, w);
    }
  }

  lemma SegmentIsStraight(h: (real, real) -> real, stroke: seq<Sample>, w: seq<real>)
    requires IsHypot(h) && stroke != [] && InOrderOnSegment(stroke, w)
    ensures Distance(h, stroke[0], Last(stroke)) == PathLength(h, stroke)
  {
    hide IsHypot, PathLength, Mul;
    SegmentPath(h, stroke, w, |stroke|);
    assert stroke[..|stroke|] == stroke;
    KeepsLength(h, w[|w| - 1], Last(stroke).x - stroke[0].x, Last(stroke).y - stroke[0].y);
  }

  /** A stroke that the index counts: at least three samples, and some movement. */
  ghost predicate Counted(h: (real, real) -> real, stroke: seq<Sample>) {
    |stroke| >= 3 && PathLength(h, stroke) > 0.0
  }

  lemma {:induction false} AllOnes(h: (real, real) -> real, strokes: seq<seq<Sample>>)
    requires IsHypot(h) && forall i | 0 <= i < |strokes| :: strokes[i] != []
    ensures (forall v | v in Straightness(h, strokes) :: v == 1.0)
            <==> forall s | s in strokes && Counted(h, s) :: Straight(s)
    ensures Straightness(h, strokes) != [] <==> exists s | s in strokes :: Counted(h, s)
  {
    hide IsHypot, PathLength, Distance, Straight;
    if strokes != [] {
      AllOnes(h, Front(strokes));
      var stroke := Last(strokes);
      assert forall s :: s in strokes <==> s in Front(strokes) || s == stroke;
      var entry := StrokeStraightness(h, stroke);
      assert forall v :: v in Straightness(h, strokes) <==> v in Straightness(h, Front(strokes)) || v in entry;
      StraightExactlyWhen(h, stroke);
      DirectIsShortest(h, stroke);
      if Counted(h, stroke) {
        QuotientInUnit(Distance(h, stroke[0], Last(stroke)), PathLength(h, stroke));
        assert entry[0] in entry;
      }
      assert (forall v | v in entry :: v == 1.0) <==> (Counted(h, stroke) ==> Straight(stroke));
    }
  }

  lemma {:induction false} SumIsWhole(values: seq<real>)
    requires InUnit(values)
    ensures Sum(values) == |values| as real <==> forall v | v in values :: v == 1.0
  {
    if values != [] {
      assert values == Front(values) + [Last(values)];
      assert forall v | v in Front(values) :: v in values;
      assert Last(values) in values && Sum(values) == Sum(Front(values)) + Last(values);
      SumIsWhole(Front(values));
      SumInRange(Front(values));
      assert |values| as real == |Front(values)| as real + 1.0;
      assert 0.0 <= Last(values) <= 1.0;
    }
  }

  /** The index is 1 exactly if some stroke counts and the samples of every stroke that does lie in order on a segment. */
  lemma StraightnessIsOneExactlyWhen(h: (real, real) -> real, samples: seq<Sample>)
    requires IsHypot(h)
    ensures
      var strokes := Strokes(samples);
      Mean(Straightness(h, strokes)) == 1.0 <==>
      && (exists s | s in strokes :: Counted(h, s))
      && forall s | s in strokes && Counted(h, s) :: Straight(s)
  {
    hide IsHypot, Strokes, Counted, Straightness, Straight;
    var strokes := Strokes(samples);
    var values := Straightness(h, strokes);
    AllOnes(h, strokes);
    EveryStraightnessInUnit(h, strokes);
    if values != [] {
      SumIsWhole(values);
      SumInRange(values);
      QuotientInUnit(Sum(values), |values| as real);
    }
  }

  // -- Fitts' law ----------------------------------------------------------------------------------

  function Moving(clicks: seq<Click>): seq<Click> {
    if clicks == [] then []
    else Moving(Front(clicks)) + if Last(clicks).movementTime > 0.0 then [Last(clicks)] else []
  }

  function Indices(clicks: seq<Click>): (xs: seq<real>)
    ensures |xs| == |clicks|
  {
    seq(|clicks|, i requires 0 <= i < |clicks| => clicks[i].fittsIndex)
  }

  function Times(clicks: seq<Click>): (ys: seq<real>)
    ensures |ys| == |clicks|
  {
    seq(|clicks|, i requires 0 <= i < |clicks| => clicks[i].movementTime)
  }

  function Centred(values: seq<real>, m: real): (r: seq<real>)
    ensures |r| == |values|
  {
    seq(|values|, i requires 0 <= i < |values| => values[i] - m)
  }

  /** The squared correlation of two series of the same length. */
  function RSquared(xs: seq<real>, ys: seq<real>): real
    requires |xs| == |ys|
  {
    var a, b := Centred(xs, Mean(xs)), Centred(ys, Mean(ys));
    if Dot(a, a) > 0.0 && Dot(b, b) > 0.0 then Sq(Dot(a, b)) / Mul(Dot(a, a), Dot(b, b)) else 0.0
  }

  function FittsR2(clicks: seq<Click>): real {
    var pts := Moving(clicks);
    if |pts| < 3 then 0.0 else RSquared(Indices(pts), Times(pts))
  }

  /** The points lie on one line that is neither level nor upright. */
  ghost predicate OnSlopedLine(xs: seq<real>, ys: seq<real>)
    requires |xs| == |ys|
  {
    var a, b := Centred(xs, Mean(xs)), Centred(ys, Mean(ys));
    Dot(a, a) > 0.0 && Dot(b, b) > 0.0 && exists k :: IsMultiple(k, a, b)
  }

  /** The clicks that count are those after some movement time. */
  lemma {:induction false} MovingIsAfterMovement(clicks: seq<Click>)
    ensures forall c :: c in Moving(clicks) <==> c in clicks && c.movementTime > 0.0
    ensures |Moving(clicks)| <= |clicks|
    ensures (forall c | c in clicks :: c.movementTime > 0.0) ==> Moving(clicks) == clicks
  {
    if clicks != [] {
      MovingIsAfterMovement(Front(clicks));
      assert clicks == Front(clicks) + [Last(clicks)];
    }
  }

  /** R squared lies between 0 and 1 and is 1 exactly for points on a sloped line. */
  lemma RSquaredInUnit(xs: seq<real>, ys: seq<real>)
    requires |xs| == |ys|
    ensures 0.0 <= RSquared(xs, ys) <= 1.0
    ensures RSquared(xs, ys) == 1.0 <==> OnSlopedLine(xs, ys)
  {
    hide Sq, Mul, Dot, Centred, Mean, IsMultiple;
    var a, b := Centred(xs, Mean(xs)), Centred(ys, Mean(ys));
    if Dot(a, a) > 0.0 && Dot(b, b) > 0.0 {
      CauchySchwarz(a, b);
      MulPositive(Dot(a, a), Dot(b, b));
      SqNonNegative(Dot(a, b));
      QuotientInUnit(Sq(Dot(a, b)), Mul(Dot(a, a), Dot(b, b)));
    }
  }

  /** What is left of ys beside the line of slope k and height d: the sum of squares. */
  function Residual(xs: seq<real>, ys: seq<real>, k: real, d: real): real
    requires |xs| == |ys|
  {
    var r := seq(|xs|, i requires 0 <= i < |xs| => ys[i] - (Mul(k, xs[i]) + d));
    Dot(r, r)
  }

  lemma {:induction false} SumOfCentred(values: seq<real>, m: real)
    ensures Sum(Centred(values, m)) == Sum(values) - Mul(|values| as real, m)
  {
    if values == [] {
      assert Centred(values, m) == [];
    } else {
      SumOfCentred(Front(values), m);
      assert Front(Centred(values, m)) == Centred(Front(values), m);
      assert |values| as real == |Front(values)| as real + 1.0;
      StepAlong(1.0, |Front(values)| as real, m);
    }
  }

  lemma CentredSumsToZero(values: seq<real>)
    ensures Sum(Centred(values, Mean(values))) == 0.0
  {
    SumOfCentred(values, Mean(values));
    if values != [] {
      DivideBack(Sum(values), |values| as real);
    }
  }

  lemma {:induction false} SumOfCombination(t: real, a: seq<real>, b: seq<real>)
    requires |a| == |b|
    ensures Sum(Combine(t, a, b)) == Mul(t, Sum(a)) + Sum(b)
  {
    hide Mul;
    if a == [] {
      TimesNothing(t);
    } else {
      SumOfCombination(t, Front(a), Front(b));
      assert Front(Combine(t, a, b)) == Combine(t, Front(a), Front(b));
      MulDistributes(t, Sum(Front(a)), Last(a));
    }
  }

  function Shifted(u: seq<real>, e: real): (r: seq<real>)
    ensures |r| == |u|
  {
    seq(|u|, i requires 0 <= i < |u| => u[i] + e)
  }

  lemma SquareOfShift(u: real, e: real)
    ensures Mul(u + e, u + e) == Mul(u, u) + 2.0 * Mul(e, u) + Sq(e)
  {
  }

  /** Shifting numbers that sum to zero never shortens them. */
  lemma {:induction false} DotOfShifted(u: seq<real>, e: real)
    ensures Dot(Shifted(u, e), Shifted(u, e)) == Dot(u, u) + 2.0 * Mul(e, Sum(u)) + Mul(|u| as real, Sq(e))
  {
    hide Mul, Sq;
    if u == [] {
      TimesNothing(e);
      MulZero(Sq(e));
    } else {
      var s := Shifted(u, e);
      DotOfShifted(Front(u), e);
      assert s[..|s| - 1] == Shifted(Front(u), e) && Front(u) == u[..|u| - 1];
      SquareOfShift(Last(u), e);
      MulDistributes(e, Sum(Front(u)), Last(u));
      assert |u| as real == |Front(u)| as real + 1.0;
      StepAlong(1.0, |Front(u)| as real, Sq(e));
      MulZero(Sq(e));
    }
  }

  /** Beside any line the centred points leave a combination, shifted. */
  lemma ResidualIsShifted(xs: seq<real>, ys: seq<real>, k: real, d: real)
    requires |xs| == |ys|
    ensures
      var mx, my := Mean(xs), Mean(ys);
      var u := Combine(-k, Centred(xs, mx), Centred(ys, my));
      Residual(xs, ys, k, d) == Dot(Shifted(u, my - Mul(k, mx) - d), Shifted(u, my - Mul(k, mx) - d))
  {
    hide Mean;
    var mx, my := Mean(xs), Mean(ys);
    var u := Combine(-k, Centred(xs, mx), Centred(ys, my));
    var r := seq(|xs|, i requires 0 <= i < |xs| => ys[i] - (Mul(k, xs[i]) + d));
    forall i | 0 <= i < |xs| ensures r[i] == Shifted(u, my - Mul(k, mx) - d)[i] {
      LineAt(xs[i], mx, k);
    }
    assert r == Shifted(u, my - Mul(k, mx) - d);
  }

  lemma LineAt(x: real, m: real, k: real)
    ensures Mul(-k, x - m) == Mul(k, m) - Mul(k, x)
  {
  }

  lemma ResidualAtLeast(xs: seq<real>, ys: seq<real>, k: real, d: real)
    requires |xs| == |ys|
    ensures
      var u := Combine(-k, Centred(xs, Mean(xs)), Centred(ys, Mean(ys)));
      && Residual(xs, ys, k, d) >= Dot(u, u)
      && (d == Mean(ys) - Mul(k, Mean(xs)) ==> Residual(xs, ys, k, d) == Dot(u, u))
  {
    hide Mul, Sq, Dot, Sum, Combine, Centred, Residual, Mean;
    var mx, my := Mean(xs), Mean(ys);
    var a, b := Centred(xs, mx), Centred(ys, my);
    var u, e := Combine(-k, a, b), my - Mul(k, mx) - d;
    ResidualIsShifted(xs, ys, k, d);
    SumOfCombination(-k, a, b);
    CentredSumsToZero(xs);
    CentredSumsToZero(ys);
    TimesNothing(-k);
    DotOfShifted(u, e);
    TimesNothing(e);
    SqNonNegative(e);
    MulNonNegative(|u| as real, Sq(e));
    if e == 0.0 {
      SqZero(e);
      TimesNothing(|u| as real);
    }
  }

  lemma ShareOfRest(p: real, r: real, s: real, z: real)
    requires p > 0.0 && r > 0.0 && Mul(p, z) == Mul(p, r) - s
    ensures Mul(p, r) > 0.0 && Mul(r, 1.0 - s / Mul(p, r)) == z
  {
    MulPositive(p, r);
    var q := s / (p * r);
    assert p * r * q == s;
    assert p * (r * (1.0 - q)) == p * r - p * r * q;
    SameFactor(p, r * (1.0 - q), z);
  }

  /** R squared is the share of the spread of ys that the best line explains: no line leaves less than the share
      1 - R squared, and this line leaves just that. */
  lemma RSquaredIsExplained(xs: seq<real>, ys: seq<real>) returns (k: real, d: real)
    requires |xs| == |ys|
    requires exists x, y :: x in xs && y in xs && x != y
    requires exists x, y :: x in ys && y in ys && x != y
    ensures
      var spread := Residual(xs, ys, 0.0, Mean(ys));
      spread > 0.0 && Residual(xs, ys, k, d) == Mul(spread, 1.0 - RSquared(xs, ys))
    ensures forall k', d' :: Residual(xs, ys, k, d) <= Residual(xs, ys, k', d')
  {
    hide Mul, Sq, Dot, Sum, Combine, Residual, Mean;
    var a, b := Centred(xs, Mean(xs)), Centred(ys, Mean(ys));
    SpreadIsPositive(xs, Mean(xs));
    SpreadIsPositive(ys, Mean(ys));
    var p, q, r := Dot(a, a), Dot(a, b), Dot(b, b);
    k := q / p;
    d := Mean(ys) - Mul(k, Mean(xs));
    assert -k == -q / p;
    ResidualAtLeast(xs, ys, k, d);
    ShortestCombination(a, b, 0.0);
    var best := Dot(Combine(-k, a, b), Combine(-k, a, b));
    ShareOfRest(p, r, Sq(q), best);
    SpreadIsResidual(xs, ys);
    forall k', d' ensures Residual(xs, ys, k, d) <= Residual(xs, ys, k', d') {
      ResidualAtLeast(xs, ys, k', d');
      ShortestCombination(a, b, -k');
    }
  }

  /** Without any spread there is nothing to explain. */
  lemma NoSpread(xs: seq<real>, ys: seq<real>)
    requires |xs| == |ys| && ((forall x, y | x in xs && y in xs :: x == y) || forall x, y | x in ys && y in ys :: x == y)
    ensures RSquared(xs, ys) == 0.0
  {
    if forall x, y | x in xs && y in xs :: x == y {
      ConstantIsCentred(xs);
    } else {
      ConstantIsCentred(ys);
    }
  }

  lemma ConstantIsCentred(values: seq<real>)
    requires forall x, y | x in values && y in values :: x == y
    ensures Dot(Centred(values, Mean(values)), Centred(values, Mean(values))) == 0.0
  {
    var c := Centred(values, Mean(values));
    DotSelf(c);
    CentredSumsToZero(values);
    if values != [] {
      forall i | 0 <= i < |c| ensures c[i] == c[0] {
        assert values[i] in values && values[0] in values;
      }
      SumOfConstant(c, c[0]);
      NonzeroTimes(|c| as real, c[0]);
    }
  }

  lemma {:induction false} SumOfConstant(values: seq<real>, v: real)
    requires forall i | 0 <= i < |values| :: values[i] == v
    ensures Sum(values) == Mul(|values| as real, v)
  {
    if values == [] {
      MulZero(v);
    } else {
      SumOfConstant(Front(values), v);
      assert |values| as real == |Front(values)| as real + 1.0;
      StepAlong(1.0, |Front(values)| as real, v);
      MulZero(v);
    }
  }

  lemma NonzeroTimes(n: real, v: real)
    requires n > 0.0 && Mul(n, v) == 0.0
    ensures v == 0.0
  {
    TimesNothing(n);
    SameFactor(n, v, 0.0);
  }

  lemma SpreadIsResidual(xs: seq<real>, ys: seq<real>)
    requires |xs| == |ys|
    ensures Residual(xs, ys, 0.0, Mean(ys)) == Dot(Centred(ys, Mean(ys)), Centred(ys, Mean(ys)))
  {
    hide Mean, Dot;
    forall i | 0 <= i < |xs| ensures Mul(0.0, xs[i]) == 0.0 {
    }
    assert seq(|xs|, i requires 0 <= i < |xs| => ys[i] - (Mul(0.0, xs[i]) + Mean(ys))) == Centred(ys, Mean(ys));
  }

  lemma SpreadIsPositive(values: seq<real>, m: real)
    requires exists x, y :: x in values && y in values && x != y
    ensures Dot(Centred(values, m), Centred(values, m)) > 0.0
  {
    hide Dot;
    var x, y :| x in values && y in values && x != y;
    var i :| 0 <= i < |values| && values[i] == x;
    var j :| 0 <= j < |values| && values[j] == y;
    var c := Centred(values, m);
    DotSelf(c);
    assert c[i] == x - m && c[j] == y - m;
  }

  lemma FittsR2InUnit(clicks: seq<Click>)
    ensures 0.0 <= FittsR2(clicks) <= 1.0
  {
    RSquaredInUnit(Indices(Moving(clicks)), Times(Moving(clicks)));
  }

  /** The collector's value is 1 exactly for at least three clicks after a movement whose times lie on a sloped line over
      their indices of difficulty. */
  lemma FittsR2IsOneExactlyWhen(clicks: seq<Click>)
    ensures
      var pts := Moving(clicks);
      && (FittsR2(clicks) == 1.0 <==> |pts| > 2 && OnSlopedLine(Indices(pts), Times(pts)))
      && (|pts| <= 2 ==> FittsR2(clicks) == 0.0) && (|pts| > 2 ==> FittsR2(clicks) == RSquared(Indices(pts), Times(pts)))
  {
    hide RSquared, OnSlopedLine;
    RSquaredInUnit(Indices(Moving(clicks)), Times(Moving(clicks)));
  }

  // -- The collector -------------------------------------------------------------------------------

  datatype Analysis = Analysis(eventCount: nat, straightnessIndex: real, fittsLawR2: real, clickPrecision: real,
                               pauseCount: nat, avgPauseDuration: real, totalDuration: real)

  function Precisions(clicks: seq<Click>): (r: seq<real>)
    ensures |r| == |clicks|
  {
    seq(|clicks|, i requires 0 <= i < |clicks| => clicks[i].precision)
  }

  method FilterMoving(clicks: seq<Click>) returns (pts: seq<Click>)
    ensures pts == Moving(clicks)
  {
    pts := [];
    for i := 0 to |clicks|
      invariant pts == Moving(clicks[..i])
    {
      assert Front(clicks[..i + 1]) == clicks[..i];
      if clicks[i].movementTime > 0.0 {
        pts := pts + [clicks[i]];
      }
    }
    assert clicks[..|clicks|] == clicks;
  }

  method MeanLoop(values: seq<real>) returns (m: real)
    ensures m == Mean(values)
  {
    if |values| == 0 {
      return 0.0;
    }
    var sum := 0.0;
    for i := 0 to |values|
      invariant sum == Sum(values[..i])
    {
      assert Front(values[..i + 1]) == values[..i];
      sum := sum + values[i];
    }
    assert values[..|values|] == values;
    return sum / |values| as real;
  }

  method FittsR2Loop(clicks: seq<Click>) returns (r2: real)
    ensures r2 == FittsR2(clicks)
  {
    hide Mul, Mean, Moving;
    var pts := FilterMoving(clicks);
    if |pts| < 3 {
      return 0.0;
    }
    var xs, ys := Indices(pts), Times(pts);
    var mx := MeanLoop(xs);
    var my := MeanLoop(ys);
    var num, dx2, dy2 := 0.0, 0.0, 0.0;
    ghost var a, b := Centred(xs, mx), Centred(ys, my);
    for i := 0 to |pts|
      invariant num == Dot(a[..i], b[..i]) && dx2 == Dot(a[..i], a[..i]) && dy2 == Dot(b[..i], b[..i])
    {
      assert a[..i + 1][..i] == a[..i] && b[..i + 1][..i] == b[..i];
      num := num + Mul(xs[i] - mx, ys[i] - my);
      dx2 := dx2 + Mul(xs[i] - mx, xs[i] - mx);
      dy2 := dy2 + Mul(ys[i] - my, ys[i] - my);
    }
    assert a[..|pts|] == a && b[..|pts|] == b;
    if dx2 > 0.0 && dy2 > 0.0 {
      MulPositive(dx2, dy2);
      return Sq(num) / Mul(dx2, dy2);
    }
    return 0.0;
  }

  /** The statistics, stroke by stroke; below two samples only the clicks count. */
  function Analyse(h: (real, real) -> real, samples: seq<Sample>, clicks: seq<Click>): Analysis {
    if |samples| < 2 then Analysis(|samples|, 0.0, 0.0, Mean(Precisions(clicks)), 0, 0.0, 0.0)
    else
      var strokes := Strokes(samples);
      var pauses := |strokes| - 1;
      Analysis(|samples|, Mean(Straightness(h, strokes)), FittsR2(clicks), Mean(Precisions(clicks)), pauses,
               if pauses > 0 then PauseTime(samples) / pauses as real else 0.0, Duration(samples))
  }

  /** Below two samples there is nothing to say but how many there are and how precise the clicks were; otherwise the
      statistics are those of the strokes and pauses. */
  lemma AnalysisTells(h: (real, real) -> real, samples: seq<Sample>, clicks: seq<Click>)
    ensures
      var d := Analyse(h, samples, clicks);
      && d.eventCount == |samples| && d.clickPrecision == Mean(Precisions(clicks))
      && (|samples| <= 1 ==> d.straightnessIndex == d.fittsLawR2 == d.avgPauseDuration == d.totalDuration == 0.0
                             && d.pauseCount == 0)
      && (|samples| > 1 ==> d.fittsLawR2 == FittsR2(clicks) && d.straightnessIndex == Mean(Straightness(h, Strokes(samples)))
                            && d.pauseCount + 1 == |Strokes(samples)| && d.totalDuration == Last(samples).t - samples[0].t)
  {
    hide Mean, Straightness, FittsR2, PauseTime;
  }

  /** In every analysis the strokes last as long as the pauses leave. */
  lemma {:induction false} StrokesFillTheRest(h: (real, real) -> real, samples: seq<Sample>, clicks: seq<Click>)
    requires |samples| >= 2
    ensures
      var d := Analyse(h, samples, clicks);
      StrokeTime(Strokes(samples)) == d.totalDuration - Mul(d.pauseCount as real, d.avgPauseDuration)
  {
    hide Mean, Straightness, FittsR2, Strokes, PauseTime, StrokeTime, Duration, Mul;
    TimesAddUp(samples);
    var pauses := |Strokes(samples)| - 1;
    if pauses > 0 {
      DivideBack(PauseTime(samples), pauses as real);
    } else {
      OneStrokeNoPause(samples);
      NoPauses();
    }
  }

  lemma NoPauses()
    ensures Mul(0.0, 0.0) == 0.0
  {
  }

  lemma DivideBack(a: real, n: real)
    requires n > 0.0
    ensures Mul(n, a / n) == a
  {
  }

  lemma {:induction false} OneStrokeNoPause(samples: seq<Sample>)
    requires samples != [] && |Strokes(samples)| == 1
    ensures PauseTime(samples) == 0.0
  {
    if |samples| > 1 {
      OneStrokeNoPause(Front(samples));
    }
  }

  lemma PathLengthAppend(h: (real, real) -> real, stroke: seq<Sample>, s: Sample)
    requires stroke != []
    ensures PathLength(h, stroke + [s]) == PathLength(h, stroke) + Distance(h, Last(stroke), s)
  {
    assert Front(stroke + [s]) == stroke;
  }

  lemma StraightnessAppend(h: (real, real) -> real, strokes: seq<seq<Sample>>, stroke: seq<Sample>)
    requires (forall i | 0 <= i < |strokes| :: strokes[i] != []) && stroke != []
    ensures Straightness(h, strokes + [stroke]) == Straightness(h, strokes) + StrokeStraightness(h, stroke)
  {
    assert Front(strokes + [stroke]) == strokes;
  }

  /** The accumulators of the loop after the samples so far: the open stroke is the last one. */
  ghost predicate SweptTo(h: (real, real) -> real, samples: seq<Sample>, straightness: seq<real>, pauseCount: nat,
                          totalPause: real, strokeFirst: Sample, strokePath: real, strokePoints: nat)
    requires samples != []
  {
    var strokes := Strokes(samples);
    var open := Last(strokes);
    && straightness == Straightness(h, Front(strokes)) && pauseCount == |strokes| - 1
    && totalPause == PauseTime(samples)
    && strokeFirst == open[0] && strokePath == PathLength(h, open) && strokePoints == |open|
  }

  method EndStroke(h: (real, real) -> real, straightness: seq<real>, first: Sample, last: Sample, path: real, points: nat)
    returns (r: seq<real>)
    ensures r == straightness + if points >= 3 && path > 0.0 then [Distance(h, first, last) / path] else []
  {
    r := straightness;
    if points >= 3 && path > 0.0 {
      r := r + [h(last.x - first.x, last.y - first.y) / path];
    }
  }

  lemma SweepPause(h: (real, real) -> real, samples: seq<Sample>, s: Sample, straightness: seq<real>, pauseCount: nat,
                   totalPause: real, strokeFirst: Sample, strokePath: real, strokePoints: nat)
    requires samples != [] && PauseBetween(Last(samples), s)
    requires SweptTo(h, samples, straightness, pauseCount, totalPause, strokeFirst, strokePath, strokePoints)
    ensures
      var ended := straightness
        + if strokePoints >= 3 && strokePath > 0.0 then [Distance(h, strokeFirst, Last(samples)) / strokePath] else [];
      SweptTo(h, samples + [s], ended, pauseCount + 1, totalPause + (s.t - Last(samples).t), s, 0.0, 1)
  {
    hide Straightness, Distance, PauseBetween, PathLength;
    var strokes := Strokes(samples);
    StraightnessAppend(h, Front(strokes), Last(strokes));
    assert Front(strokes + [[s]]) == strokes;
    NoPath(h, s);
  }

  lemma NoPath(h: (real, real) -> real, s: Sample)
    ensures PathLength(h, [s]) == 0.0
  {
  }

  lemma SweepMove(h: (real, real) -> real, samples: seq<Sample>, s: Sample, straightness: seq<real>, pauseCount: nat,
                  totalPause: real, strokeFirst: Sample, strokePath: real, strokePoints: nat)
    requires samples != [] && !PauseBetween(Last(samples), s)
    requires SweptTo(h, samples, straightness, pauseCount, totalPause, strokeFirst, strokePath, strokePoints)
    ensures SweptTo(h, samples + [s], straightness, pauseCount, totalPause, strokeFirst,
                    strokePath + Distance(h, Last(samples), s), strokePoints + 1)
  {
    hide Straightness, Distance, PauseBetween, PathLength;
    var strokes := Strokes(samples);
    PathLengthAppend(h, Last(strokes), s);
    assert Front(Front(strokes) + [Last(strokes) + [s]]) == Front(strokes);
  }

  /** The loop over the samples. */
  method Sweep(h: (real, real) -> real, samples: seq<Sample>)
    returns (straightness: seq<real>, pauseCount: nat, totalPause: real)
    requires samples != []
    ensures straightness == Straightness(h, Strokes(samples))
    ensures pauseCount == |Strokes(samples)| - 1 && totalPause == PauseTime(samples)
  {
    hide SweptTo, Straightness, PathLength;
    straightness, pauseCount, totalPause := [], 0, 0.0;
    var strokeFirst, strokePath, strokePoints := samples[0], 0.0, 1;
    SweepStart(h, samples[0]);
    assert samples[..1] == [samples[0]];
    for i := 1 to |samples|
      invariant SweptTo(h, samples[..i], straightness, pauseCount, totalPause, strokeFirst, strokePath, strokePoints)
    {
      var p1, p2 := samples[i - 1], samples[i];
      var dtMs := p2.t - p1.t;
      assert samples[..i + 1] == samples[..i] + [p2] && Last(samples[..i]) == p1;
      if dtMs > PAUSE_MS {
        SweepPause(h, samples[..i], p2, straightness, pauseCount, totalPause, strokeFirst, strokePath, strokePoints);
        straightness := EndStroke(h, straightness, strokeFirst, p1, strokePath, strokePoints);
        pauseCount := pauseCount + 1;
        totalPause := totalPause + dtMs;
        strokeFirst, strokePath, strokePoints := p2, 0.0, 1;
      } else {
        SweepMove(h, samples[..i], p2, straightness, pauseCount, totalPause, strokeFirst, strokePath, strokePoints);
        strokePath := strokePath + h(p2.x - p1.x, p2.y - p1.y);
        strokePoints := strokePoints + 1;
      }
    }
    assert samples[..|samples|] == samples;
    SweepEnd(h, samples, straightness, pauseCount, totalPause, strokeFirst, strokePath, strokePoints);
    straightness := EndStroke(h, straightness, strokeFirst, samples[|samples| - 1], strokePath, strokePoints);
  }

  lemma SweepStart(h: (real, real) -> real, s: Sample)
    ensures SweptTo(h, [s], [], 0, 0.0, s, 0.0, 1)
  {
    assert Front([s]) == [];
    assert Strokes([s]) == [[s]];
    assert Front([[s]]) == [];
  }

  lemma SweepEnd(h: (real, real) -> real, samples: seq<Sample>, straightness: seq<real>, pauseCount: nat,
                 totalPause: real, strokeFirst: Sample, strokePath: real, strokePoints: nat)
    requires samples != []
    requires SweptTo(h, samples, straightness, pauseCount, totalPause, strokeFirst, strokePath, strokePoints)
    ensures
      straightness
      + (if strokePoints >= 3 && strokePath > 0.0 then [Distance(h, strokeFirst, Last(samples)) / strokePath] else [])
      == Straightness(h, Strokes(samples))
    ensures pauseCount == |Strokes(samples)| - 1 && totalPause == PauseTime(samples)
  {
    hide PathLength, Distance, PauseTime;
    var strokes := Strokes(samples);
    StraightnessAppend(h, Front(strokes), Last(strokes));
  }

  /** The record of a click; where no movement came before, it starts at the click. */
  function ClickOn(h: (real, real) -> real, log2: real -> real, strokeStart: Option<Sample>, x: real, y: real, t: real,
                   r: Rect): Click
    requires IsHypot(h) && r.width > 0.0 && r.height > 0.0
  {
    var cx, cy := r.left + r.width / 2.0, r.top + r.height / 2.0;
    var start := if strokeStart.Some? then strokeStart.value else Sample(x, y, t);
    var width := if r.width < r.height then r.width else r.height;
    Click(Precision(h, x, y, r), log2(h(cx - start.x, cy - start.y) / width + 1.0), t - start.t)
  }

  function Precision(h: (real, real) -> real, x: real, y: real, r: Rect): real
    requires IsHypot(h) && r.width > 0.0 && r.height > 0.0
  {
    var halfDiagonal := h(r.width, r.height) / 2.0;
    DiagonalPositive(h, r);
    var off := h(x - (r.left + r.width / 2.0), y - (r.top + r.height / 2.0)) / halfDiagonal;
    1.0 - if off < 1.0 then off else 1.0
  }

  /** Where everything is on the page does not matter, only how far apart; and the index of difficulty depends on the
      ratio of distance and width alone. A click at the point where the movement began, the target's centre, has the index
      of ratio one, and its movement time is the time since then. */
  lemma ClickIsRelative(h: (real, real) -> real, log2: real -> real, s: Sample, x: real, y: real, t: real, r: Rect,
                        dx: real, dy: real, dt: real)
    requires IsHypot(h) && r.width > 0.0 && r.height > 0.0
    ensures
      var moved := Rect(r.left + dx, r.top + dy, r.width, r.height);
      ClickOn(h, log2, Some(Sample(s.x + dx, s.y + dy, s.t + dt)), x + dx, y + dy, t + dt, moved)
      == ClickOn(h, log2, Some(s), x, y, t, r)
    ensures ClickOn(h, log2, Some(s), x, y, t, r).movementTime + s.t == t
    ensures ClickOn(h, log2, None, x, y, t, r) == ClickOn(h, log2, Some(Sample(x, y, t)), x, y, t, r)
  {
    var a, b := r.left + r.width / 2.0, r.top + r.height / 2.0;
    assert r.left + dx + r.width / 2.0 - (s.x + dx) == a - s.x && r.top + dy + r.height / 2.0 - (s.y + dy) == b - s.y;
    assert x + dx - (r.left + dx + r.width / 2.0) == x - a && y + dy - (r.top + dy + r.height / 2.0) == y - b;
  }

  /** From a start at distance d left of the centre the index is that of d over the smaller side, plus one. */
  lemma DifficultyOfDistance(h: (real, real) -> real, log2: real -> real, t0: real, x: real, y: real, t: real, r: Rect,
                             d: real)
    requires IsHypot(h) && r.width > 0.0 && r.height > 0.0 && d >= 0.0
    ensures
      var start := Sample((r.left + (r.left + r.width)) / 2.0 - d, (r.top + (r.top + r.height)) / 2.0, t0);
      var index := ClickOn(h, log2, Some(start), x, y, t, r).fittsIndex;
      && (r.width <= r.height ==> index == log2((d + r.width) / r.width))
      && (r.height <= r.width ==> index == log2((d + r.height) / r.height))
  {
    assert h(d, 0.0) == d by {
      SqZero(0.0);
      RootMonotone(h(d, 0.0), d);
      RootMonotone(d, h(d, 0.0));
    }
    QuotientPlusOne(d, r.width);
    QuotientPlusOne(d, r.height);
  }

  lemma QuotientPlusOne(a: real, b: real)
    requires b > 0.0
    ensures a / b + 1.0 == (a + b) / b
  {
    var q, p := a / b, (a + b) / b;
    assert q * b == a && p * b == a + b;
    assert b * (q + 1.0) == a + b;
    SameFactor(b, q + 1.0, p);
  }

  lemma DiagonalPositive(h: (real, real) -> real, r: Rect)
    requires IsHypot(h) && r.width > 0.0 && r.height > 0.0
    ensures h(r.width, r.height) > 0.0
  {
    hide Sq;
    assert Sq(h(r.width, r.height)) == Sq(r.width) + Sq(r.height);
    SqZero(r.width);
    SqNonNegative(r.width);
    SqNonNegative(r.height);
    SqZero(h(r.width, r.height));
  }

  /** Precision lies between 0 and 1; it is 1 exactly at the centre, and 0 exactly at the distance of the corners or
      beyond. */
  lemma PrecisionInUnit(h: (real, real) -> real, x: real, y: real, r: Rect)
    requires IsHypot(h) && r.width > 0.0 && r.height > 0.0
    ensures
      var cx, cy := r.left + r.width / 2.0, r.top + r.height / 2.0;
      && 0.0 <= Precision(h, x, y, r) <= 1.0
      && (Precision(h, x, y, r) == 1.0 <==> x == cx && y == cy)
      && (Precision(h, x, y, r) == 0.0 <==> 2.0 * h(x - cx, y - cy) >= h(r.width, r.height))
  {
    hide Sq;
    DiagonalPositive(h, r);
    var cx, cy := r.left + r.width / 2.0, r.top + r.height / 2.0;
    var d, half := h(x - cx, y - cy), h(r.width, r.height) / 2.0;
    assert Sq(d) == Sq(x - cx) + Sq(y - cy);
    SqZero(d);
    SqZero(x - cx);
    SqZero(y - cy);
    SqNonNegative(x - cx);
    SqNonNegative(y - cy);
    Share(d, half);
  }

  lemma ClickInUnit(h: (real, real) -> real, log2: real -> real, strokeStart: Option<Sample>, x: real, y: real, t: real,
                    r: Rect)
    requires IsHypot(h) && r.width > 0.0 && r.height > 0.0
    ensures 0.0 <= ClickOn(h, log2, strokeStart, x, y, t, r).precision <= 1.0
  {
    PrecisionInUnit(h, x, y, r);
  }

  lemma PushInUnit(clicks: seq<Click>, click: Click)
    requires |clicks| <= MAX_CLICKS && InUnit(Precisions(clicks)) && 0.0 <= click.precision <= 1.0
    ensures
      var w := Window(clicks + [click], MAX_CLICKS);
      && |w| <= MAX_CLICKS && InUnit(Precisions(w))
      && w == if |clicks| < MAX_CLICKS then clicks + [click] else (clicks + [click])[1..]
  {
    var w := Window(clicks + [click], MAX_CLICKS);
    var ps := Precisions(clicks);
    forall i | 0 <= i < |w| ensures 0.0 <= w[i].precision <= 1.0 {
      var j := i + |clicks| + 1 - |w|;
      assert w[i] == (clicks + [click])[j];
      assert j < |clicks| ==> clicks[j].precision == ps[j];
    }
  }

  lemma Share(d: real, half: real)
    requires d >= 0.0 && half > 0.0
    ensures d / half >= 0.0 && (d / half == 0.0 <==> d == 0.0) && (d / half >= 1.0 <==> d >= half)
  {
  }

  class MouseCollector {
    const hypot: (real, real) -> real
    const log2: real -> real
    const maxSamples: int
    ghost var trace: seq<Sample>
    var samples: seq<Sample>
    var clicks: seq<Click>
    var strokeStart: Option<Sample>

    /** The samples are the last accepted ones, in time order and at most `maxSamples`. */
    ghost predicate Valid()
      reads this
    {
      && IsHypot(hypot) && maxSamples > 0
      && samples == Window(Accepted(trace), maxSamples)
      && strokeStart == StrokeStart(Accepted(trace))
      && |clicks| <= MAX_CLICKS && InUnit(Precisions(clicks))
    }

    constructor (maxSamples: nat, hypot: (real, real) -> real, log2: real -> real)
      requires IsHypot(hypot)
      ensures Valid() && trace == [] && clicks == []
    {
      this.maxSamples := if maxSamples == 0 then 2000 else maxSamples;
      this.hypot, this.log2 := hypot, log2;
      trace, samples, clicks, strokeStart := [], [], [], None;
    }

    method AddSample(x: real, y: real, t: real)
      requires Valid()
      modifies this
      ensures Valid() && trace == old(trace) + [Sample(x, y, t)] && clicks == old(clicks)
    {
      hide IsHypot, InUnit, Precisions, Accepted, Window, StrokeStart;
      var s := Sample(x, y, t);
      ghost var before := Accepted(trace);
      AcceptedAppend(trace, s);
      WindowAppend(before, maxSamples, s);
      StrokeStartAppend(before, s);
      trace := trace + [s];
      if samples != [] && t <= Last(samples).t {
        return;
      }
      if samples == [] || t - Last(samples).t > PAUSE_MS {
        strokeStart := Some(s);
      }
      samples := samples + [s];
      if |samples| > maxSamples {
        samples := samples[1..];
      }
    }

    /** A click outside any visible target is not recorded; of the others the latest are kept. */
    method AddClick(x: real, y: real, t: real, rect: Option<Rect>)
      requires Valid()
      modifies this`clicks
      ensures Valid()
      ensures clicks == if rect.None? || rect.value.width <= 0.0 || rect.value.height <= 0.0 then old(clicks)
                        else Window(old(clicks) + [ClickOn(hypot, log2, strokeStart, x, y, t, rect.value)], 200)
    {
      if rect.None? || rect.value.width <= 0.0 || rect.value.height <= 0.0 {
        return;
      }
      hide IsHypot, ClickOn, Accepted, StrokeStart, Window, InUnit, Precisions;
      var click := ClickOn(hypot, log2, strokeStart, x, y, t, rect.value);
      ClickInUnit(hypot, log2, strokeStart, x, y, t, rect.value);
      PushInUnit(clicks, click);
      clicks := clicks + [click];
      if |clicks| > MAX_CLICKS {
        clicks := clicks[1..];
      }
    }

    /** The statistics of the window: counted in one pass, they are those of its strokes and pauses. */
    method GetData() returns (d: Analysis)
      requires Valid()
      ensures d == Analyse(hypot, samples, clicks)
      ensures 0.0 <= d.straightnessIndex <= 1.0 && 0.0 <= d.fittsLawR2 <= 1.0 && 0.0 <= d.clickPrecision <= 1.0
    {
      hide IsHypot, InUnit, Straightness, Strokes, Mean, FittsR2, Window, Accepted, StrokeStart, PauseTime, Sq, Mul, Dot;
      StraightnessIndexInUnit(hypot, samples);
      FittsR2InUnit(clicks);
      MeanInUnit(Precisions(clicks));
      var precision := MeanLoop(Precisions(clicks));
      if |samples| < 2 {
        return Analysis(|samples|, 0.0, 0.0, precision, 0, 0.0, 0.0);
      }
      var straightness, pauseCount, totalPause := Sweep(hypot, samples);
      var index := MeanLoop(straightness);
      var r2 := FittsR2Loop(clicks);
      d := Analysis(|samples|, index, r2, precision, pauseCount,
                    if pauseCount > 0 then totalPause / pauseCount as real else 0.0,
                    samples[|samples| - 1].t - samples[0].t);
    }
  }
}
