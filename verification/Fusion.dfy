/**
 Score fusion: noisy-OR of 0-100 scores, the rescaling of the model's probability, rounding to one decimal, and the
 verdict. Scores are real numbers; floating-point rounding is not modelled.
 */
module Fusion {

  function Clamp(x: real, lo: real, hi: real): real
    requires lo <= hi
  {
    if x < lo then lo else if x > hi then hi else x
  }

  /** The chance that one signal is harmless. */
  function Harmless(s: real): (p: real)
    ensures 0.0 <= p <= 1.0
  {
    1.0 - Clamp(s / 100.0, 0.0, 1.0)
  }

  function Benign(scores: seq<real>): real {
    if scores == [] then 1.0 else Times(Benign(scores[..|scores| - 1]), Harmless(scores[|scores| - 1]))
  }

  function Times(a: real, b: real): real {
    a * b
  }

  function NoisyOr(scores: seq<real>): real {
    100.0 * (1.0 - Benign(scores))
  }

  method NoisyOrLoop(scores: seq<real>) returns (r: real)
    ensures r == NoisyOr(scores)
  {
    var benign := 1.0;
    for i := 0 to |scores|
      invariant benign == Benign(scores[..i])
    {
      assert scores[..i + 1][..i] == scores[..i];
      benign := benign * (1.0 - Clamp(scores[i] / 100.0, 0.0, 1.0));
    }
    assert scores[..|scores|] == scores;
    return 100.0 * (1.0 - benign);
  }

  // -- Laws of noisy-OR ----------------------------------------------------------------------------

  lemma NonNegativeProduct(a: real, b: real)
    requires a >= 0.0 && b >= 0.0
    ensures a * b >= 0.0
  {
  }

  lemma ProductOfFractions(a: real, b: real)
    requires 0.0 <= a <= 1.0 && 0.0 <= b <= 1.0
    ensures 0.0 <= Times(a, b) <= a && Times(a, b) <= b
  {
    NonNegativeProduct(a, b);
    NonNegativeProduct(a, 1.0 - b);
    NonNegativeProduct(b, 1.0 - a);
    assert a * (1.0 - b) == a - a * b;
    assert b * (1.0 - a) == b - a * b;
  }

  lemma TimesLaws(a: real, b: real, c: real)
    ensures Times(Times(a, b), c) == Times(a, Times(b, c))
    ensures Times(a, b) == Times(b, a)
    ensures Times(a, 1.0) == a && Times(1.0, a) == a
  {
  }

  lemma {:induction false} BenignBounded(scores: seq<real>)
    ensures 0.0 <= Benign(scores) <= 1.0
  {
    hide Times, Harmless;
    if scores != [] {
      BenignBounded(scores[..|scores| - 1]);
      ProductOfFractions(Benign(scores[..|scores| - 1]), Harmless(scores[|scores| - 1]));
    }
  }

  lemma NoisyOrBounded(scores: seq<real>)
    ensures 0.0 <= NoisyOr(scores) <= 100.0
  {
    BenignBounded(scores);
  }

  lemma {:induction false} BenignSplit(a: seq<real>, b: seq<real>)
    ensures Benign(a + b) == Times(Benign(a), Benign(b))
  {
    hide Times, Harmless;
    if b == [] {
      assert a + b == a;
      TimesLaws(Benign(a), 1.0, 1.0);
    } else {
      var front, last := b[..|b| - 1], b[|b| - 1];
      BenignSplit(a, front);
      assert (a + b)[..|a + b| - 1] == a + front;
      TimesLaws(Benign(a), Benign(front), Harmless(last));
    }
  }

  lemma BenignOne(s: real)
    ensures Benign([s]) == Harmless(s)
  {
    assert [s][..0] == [];
  }

  /** Taking one score to the front changes nothing. */
  lemma BenignMoveFront(scores: seq<real>, i: nat)
    requires i < |scores|
    ensures Benign(scores) == Times(Harmless(scores[i]), Benign(scores[..i] + scores[i + 1..]))
  {
    hide Times, Harmless, Benign;
    var a, s, b := scores[..i], [scores[i]], scores[i + 1..];
    assert scores == a + s + b;
    BenignSplit(a + s, b);
    BenignSplit(a, s);
    BenignSplit(a, b);
    BenignOne(scores[i]);
    TimesLaws(Benign(a), Harmless(scores[i]), 1.0);
    TimesLaws(Harmless(scores[i]), Benign(a), Benign(b));
  }

  /** The order of the signals does not matter. */
  lemma {:induction false} OrderDoesNotMatter(a: seq<real>, b: seq<real>)
    requires multiset(a) == multiset(b)
    ensures Benign(a) == Benign(b) && NoisyOr(a) == NoisyOr(b)
  {
    hide Times, Harmless;
    if a == [] {
      assert |multiset(b)| == 0;
    } else {
      var i := Occurrence(a[0], b);
      var rest := b[..i] + b[i + 1..];
      SameRest(a, b, i);
      OrderDoesNotMatter(a[1..], rest);
      BenignMoveFront(b, i);
      BenignMoveFront(a, 0);
      assert a[..0] + a[1..] == a[1..];
    }
  }

  lemma Occurrence(x: real, b: seq<real>) returns (i: nat)
    requires x in multiset(b)
    ensures i < |b| && b[i] == x
  {
    i :| 0 <= i < |b| && b[i] == x;
  }

  lemma SameRest(a: seq<real>, b: seq<real>, i: nat)
    requires multiset(a) == multiset(b) && a != [] && i < |b| && b[i] == a[0]
    ensures multiset(a[1..]) == multiset(b[..i] + b[i + 1..])
  {
    assert a == [a[0]] + a[1..];
    assert b == b[..i] + [b[i]] + b[i + 1..];
    assert multiset(a[1..]) == multiset(a) - multiset{a[0]};
    assert multiset(b[..i] + b[i + 1..]) == multiset(b[..i]) + multiset(b[i + 1..]) == multiset(b) - multiset{b[i]};
  }

  /** More signals never lower the score. */
  lemma MoreSignalsRaise(a: seq<real>, b: seq<real>)
    ensures NoisyOr(a + b) >= NoisyOr(a)
  {
    hide Times, Harmless;
    BenignSplit(a, b);
    BenignBounded(a);
    BenignBounded(b);
    ProductOfFractions(Benign(a), Benign(b));
  }

  /** The fused score is at least every single one. */
  lemma AtLeastEverySignal(scores: seq<real>, i: nat)
    requires i < |scores|
    ensures NoisyOr(scores) >= Clamp(scores[i], 0.0, 100.0)
  {
    hide Times;
    var rest := scores[..i] + scores[i + 1..];
    BenignMoveFront(scores, i);
    BenignBounded(rest);
    ProductOfFractions(Harmless(scores[i]), Benign(rest));
  }

  /** Fusing a fused score with further signals is fusing all signals at once. */
  lemma FusionIsAssociative(a: seq<real>, b: seq<real>)
    ensures NoisyOr([NoisyOr(a)] + b) == NoisyOr(a + b)
  {
    hide Times;
    BenignBounded(a);
    BenignOne(NoisyOr(a));
    assert Harmless(NoisyOr(a)) == Benign(a);
    BenignSplit([NoisyOr(a)], b);
    BenignSplit(a, b);
  }

  /** One score from 0 to 100 stays as it is; two make their sum less their product over 100. Scores beyond the ends count as
      the ends. */
  lemma NoisyOrOfFew(a: real, b: real)
    requires 0.0 <= a <= 100.0 && 0.0 <= b <= 100.0
    ensures NoisyOr([]) == 0.0 && NoisyOr([a]) == a && 100.0 * NoisyOr([a, b]) == 100.0 * (a + b) - Times(a, b)
  {
    assert [a, b][..1] == [a] && [a][..0] == [];
    assert Benign([a]) == Times(1.0, 1.0 - a / 100.0);
    assert Benign([a, b]) == Times(Benign([a]), 1.0 - b / 100.0);
    var p, q := a / 100.0, b / 100.0;
    assert (1.0 - p) * (1.0 - q) == 1.0 - p - q + p * q;
    assert 10000.0 * (p * q) == a * b;
  }

  lemma BeyondTheEnds(x: real)
    ensures x < 0.0 ==> Harmless(x) == Harmless(0.0) == 1.0
    ensures x > 100.0 ==> Harmless(x) == Harmless(100.0) == 0.0
  {
  }

  // -- Rescaling the model's probability -------------------------------------------------------------

  function ModelThreshold(raw: real): real {
    Clamp(raw, 0.000001, 0.999999)
  }

  /** A usable threshold is used as it is; others are moved to a millionth from the ends. */
  lemma ModelThresholdInside(raw: real)
    ensures 0.0 < ModelThreshold(raw) < 1.0
    ensures 0.000001 <= raw <= 0.999999 ==> ModelThreshold(raw) == raw
    ensures raw < 0.000001 ==> 1000000.0 * ModelThreshold(raw) == 1.0
    ensures raw > 0.999999 ==> 1000000.0 * (1.0 - ModelThreshold(raw)) == 1.0
  {
  }

  function Ratio(a: real, d: real): real
    requires d > 0.0
  {
    a / d
  }

  /** The model's decision threshold maps to the challenge threshold. */
  function Rescale(p: real, threshold: real, challenge: real): real
    requires 0.0 < threshold < 1.0
  {
    if p < threshold then Times(Ratio(p, threshold), challenge)
    else challenge + Times(Ratio(p - threshold, 1.0 - threshold), 100.0 - challenge)
  }

  lemma RatioMonotone(a: real, b: real, d: real)
    requires a <= b && d > 0.0
    ensures Ratio(a, d) <= Ratio(b, d)
  {
  }

  /** The part of an interval that lies before a point of it. */
  lemma RatioOfPart(a: real, d: real)
    requires 0.0 <= a <= d && d > 0.0
    ensures 0.0 <= Ratio(a, d) <= 1.0
  {
  }

  lemma RatioBack(a: real, d: real)
    requires d > 0.0
    ensures Times(Ratio(a, d), d) == a
    ensures Ratio(Times(a, d), d) == a
  {
  }

  lemma TimesMonotone(a: real, b: real, c: real)
    requires a <= b && c >= 0.0
    ensures Times(a, c) <= Times(b, c)
  {
    NonNegativeProduct(b - a, c);
    assert (b - a) * c == b * c - a * c;
  }

  ghost predicate Between(a: real, x: real, b: real) {
    a <= x <= b || b <= x <= a
  }

  lemma TimesFraction(f: real, c: real)
    requires 0.0 <= f <= 1.0
    ensures Between(0.0, Times(f, c), c)
  {
    if c >= 0.0 {
      TimesMonotone(0.0, f, c);
      TimesMonotone(f, 1.0, c);
    } else {
      TimesMonotone(0.0, f, -c);
      TimesMonotone(f, 1.0, -c);
      TimesNegated(f, c);
    }
  }

  lemma TimesNegated(f: real, c: real)
    ensures Times(f, -c) == -Times(f, c)
  {
  }

  /** Below the model's threshold the score lies between 0 and the challenge threshold, above it between that and 100. */
  lemma RescaleBounds(p: real, threshold: real, challenge: real)
    requires 0.0 < threshold < 1.0 && 0.0 <= p <= 1.0
    ensures p < threshold ==> Between(0.0, Rescale(p, threshold, challenge), challenge)
    ensures p >= threshold ==> Between(challenge, Rescale(p, threshold, challenge), 100.0)
  {
    hide Ratio, Times;
    if p < threshold {
      RatioOfPart(p, threshold);
      TimesFraction(Ratio(p, threshold), challenge);
    } else {
      RatioOfPart(p - threshold, 1.0 - threshold);
      TimesFraction(Ratio(p - threshold, 1.0 - threshold), 100.0 - challenge);
    }
  }

  /** A higher probability never gives a lower score. */
  lemma RescaleMonotone(p: real, q: real, threshold: real, challenge: real)
    requires 0.0 < threshold < 1.0 && 0.0 <= p <= q <= 1.0 && 0.0 <= challenge <= 100.0
    ensures Rescale(p, threshold, challenge) <= Rescale(q, threshold, challenge)
  {
    hide Ratio, Times;
    RescaleBounds(p, threshold, challenge);
    RescaleBounds(q, threshold, challenge);
    var d := 1.0 - threshold;
    if q < threshold {
      RatioMonotone(p, q, threshold);
      TimesMonotone(Ratio(p, threshold), Ratio(q, threshold), challenge);
    } else if p >= threshold {
      RatioMonotone(p - threshold, q - threshold, d);
      TimesMonotone(Ratio(p - threshold, d), Ratio(q - threshold, d), 100.0 - challenge);
    }
  }

  /** On both sides of the model's threshold the score is a straight line. */
  lemma RescaleIsLinear(p: real, threshold: real, challenge: real)
    requires 0.0 < threshold < 1.0
    ensures p < threshold ==> Times(Rescale(p, threshold, challenge), threshold) == Times(p, challenge)
    ensures p >= threshold ==>
              Times(Rescale(p, threshold, challenge) - challenge, 1.0 - threshold) == Times(p - threshold, 100.0 - challenge)
  {
    if p < threshold {
      RatioTimes(p, threshold, challenge);
    } else {
      RatioTimes(p - threshold, 1.0 - threshold, 100.0 - challenge);
    }
  }

  lemma RatioTimes(a: real, d: real, c: real)
    requires d > 0.0
    ensures Times(Times(Ratio(a, d), c), d) == Times(a, c)
  {
    RatioBack(a, d);
    var q := Ratio(a, d);
    assert q * c * d == q * d * c;
  }

  /** The configured challenge threshold may be any whole number. Below 0 the scores fall up to the model's threshold,
      above 100 they fall from there on. */
  lemma RescaleEnds(threshold: real, challenge: real)
    requires 0.0 < threshold < 1.0
    ensures Rescale(0.0, threshold, challenge) == 0.0
    ensures Rescale(threshold, threshold, challenge) == challenge
    ensures Rescale(1.0, threshold, challenge) == 100.0
  {
    var d := 1.0 - threshold;
    RatioBack(0.0, d);
    RatioBack(1.0, d);
    assert Times(1.0, d) == d;
  }

  /** A higher probability never gives a lower score, exactly for challenge thresholds from 0 to 100. */
  lemma MonotoneExactlyWhen(threshold: real, challenge: real)
    requires 0.0 < threshold < 1.0
    ensures (forall p, q | 0.0 <= p <= q <= 1.0 :: Rescale(p, threshold, challenge) <= Rescale(q, threshold, challenge))
            <==> 0.0 <= challenge <= 100.0
  {
    hide Rescale;
    RescaleEnds(threshold, challenge);
    if 0.0 <= challenge <= 100.0 {
      forall p, q | 0.0 <= p <= q <= 1.0
        ensures Rescale(p, threshold, challenge) <= Rescale(q, threshold, challenge)
      {
        RescaleMonotone(p, q, threshold, challenge);
      }
    }
  }

  /** The scores lie between 0 and 100, exactly for the same thresholds. */
  lemma InRangeExactlyWhen(threshold: real, challenge: real)
    requires 0.0 < threshold < 1.0
    ensures (forall p | 0.0 <= p <= 1.0 :: 0.0 <= Rescale(p, threshold, challenge) <= 100.0) <==> 0.0 <= challenge <= 100.0
  {
    hide Rescale;
    RescaleEnds(threshold, challenge);
    if 0.0 <= challenge <= 100.0 {
      forall p | 0.0 <= p <= 1.0 ensures 0.0 <= Rescale(p, threshold, challenge) <= 100.0 {
        RescaleBounds(p, threshold, challenge);
      }
    }
  }

  /** The probability that a score stands for. */
  function Unscale(score: real, threshold: real, challenge: real): real
    requires 0.0 < threshold < 1.0 && 0.0 <= challenge <= 100.0 && 0.0 <= score
  {
    if score < challenge then Times(Ratio(score, challenge), threshold)
    else if challenge == 100.0 then threshold
    else threshold + Times(Ratio(score - challenge, 100.0 - challenge), 1.0 - threshold)
  }

  /** Every score from 0 to 100 is the score of some probability. */
  lemma RescaleOnto(score: real, threshold: real, challenge: real)
    requires 0.0 < threshold < 1.0 && 0.0 <= score <= 100.0 && 0.0 <= challenge <= 100.0
    ensures
      var p := Unscale(score, threshold, challenge);
      0.0 <= p <= 1.0 && Rescale(p, threshold, challenge) == score
  {
    hide Ratio, Times;
    if score < challenge {
      var f := Ratio(score, challenge);
      RatioOfPart(score, challenge);
      TimesFraction(f, threshold);
      RatioBack(score, challenge);
      RatioBack(f, threshold);
      BelowOne(f, threshold, score, challenge);
    } else if challenge == 100.0 {
      RescaleEnds(threshold, challenge);
    } else {
      var f := Ratio(score - challenge, 100.0 - challenge);
      RatioOfPart(score - challenge, 100.0 - challenge);
      TimesFraction(f, 1.0 - threshold);
      RatioBack(score - challenge, 100.0 - challenge);
      RatioBack(f, 1.0 - threshold);
    }
  }

  lemma BelowOne(f: real, d: real, score: real, challenge: real)
    requires d > 0.0 && challenge > 0.0 && score < challenge && f == Ratio(score, challenge)
    ensures Times(f, d) < d
  {
    assert (1.0 - f) * challenge == challenge - score;
    assert f * d == d - (1.0 - f) * d;
  }

  // -- Rounding ------------------------------------------------------------------------------------

  /** `round(x, 1)`: the nearest tenth, ties to the even one. */
  function Tenths(x: real): int {
    var f := (10.0 * x).Floor;
    var r := 10.0 * x - f as real;
    if r < 0.5 then f else if r > 0.5 then f + 1 else if f % 2 == 0 then f else f + 1
  }

  function Round1(x: real): real {
    Tenths(x) as real / 10.0
  }

  ghost predicate IsTenth(x: real) {
    (10.0 * x).Floor as real == 10.0 * x
  }

  lemma RoundIsNearest(x: real)
    ensures -0.05 <= Round1(x) - x <= 0.05
    ensures IsTenth(Round1(x))
    ensures IsTenth(x) ==> Round1(x) == x
  {
    var t := Tenths(x);
    assert 10.0 * Round1(x) == t as real;
    assert (t as real).Floor == t;
  }

  /** Halfway between two tenths the even one is taken. */
  lemma TiesGoToEven(n: int)
    ensures Round1((2 * n) as real / 10.0 + 0.05) == (2 * n) as real / 10.0
    ensures Round1((2 * n) as real / 10.0 - 0.05) == (2 * n) as real / 10.0
  {
    var x, y := (2 * n) as real / 10.0 + 0.05, (2 * n) as real / 10.0 - 0.05;
    assert 10.0 * x == (2 * n) as real + 0.5 && (10.0 * x).Floor == 2 * n;
    assert 10.0 * y == (2 * n - 1) as real + 0.5 && (10.0 * y).Floor == 2 * n - 1;
  }

  lemma RoundMonotone(x: real, y: real)
    requires x <= y
    ensures Round1(x) <= Round1(y)
  {
    var a, b := (10.0 * x).Floor, (10.0 * y).Floor;
    assert a <= b;
    if a < b {
      assert Tenths(x) <= a + 1 <= b <= Tenths(y);
    }
  }

  lemma WholeIsTenth(n: int)
    ensures IsTenth(n as real)
  {
    assert 10.0 * n as real == (10 * n) as real;
    assert ((10 * n) as real).Floor == 10 * n;
  }

  // -- Verdicts ------------------------------------------------------------------------------------

  datatype Mode = Monitor | Enforce

  datatype Action = Allow | MonitorOnly | Challenge | Block

  datatype Thresholds = Thresholds(mode: Mode, challenge: int, block: int)

  function Decide(score: real, c: Thresholds): Action {
    if c.mode.Monitor? then (if score >= c.challenge as real then MonitorOnly else Allow)
    else if score >= c.block as real then Block
    else if score >= c.challenge as real then Challenge
    else Allow
  }

  /** Monitor mode tells scores from the challenge threshold on; enforce mode challenges from there to the block threshold,
      and blocks from there on. */
  lemma DecideExactly(score: real, c: Thresholds)
    ensures Decide(score, c).MonitorOnly? <==> c.mode.Monitor? && c.challenge as real <= score
    ensures Decide(score, c).Block? <==> c.mode.Enforce? && c.block as real <= score
    ensures Decide(score, c).Challenge? <==> c.mode.Enforce? && c.challenge as real <= score < c.block as real
  {
  }

  /** The score of a telemetry submission: rule signals and, if there is a model, its rescaled probability. */
  function TelemetryScore(rules: seq<real>, ml: seq<real>): real {
    Round1(NoisyOr([NoisyOr(rules)] + ml))
  }

  /** Fusing the rule score with the model's score is fusing all signals at once. */
  lemma TelemetryScoreFusesAll(rules: seq<real>, ml: seq<real>)
    ensures TelemetryScore(rules, ml) == Round1(NoisyOr(rules + ml))
    ensures 0.0 <= TelemetryScore(rules, ml) <= 100.0 && IsTenth(TelemetryScore(rules, ml))
  {
    hide NoisyOr, Round1, IsTenth;
    var score := NoisyOr(rules + ml);
    FusionIsAssociative(rules, ml);
    NoisyOrBounded(rules + ml);
    RoundIsNearest(score);
    RoundBounded(score);
  }

  lemma RoundBounded(x: real)
    requires 0.0 <= x <= 100.0
    ensures 0.0 <= Round1(x) <= 100.0
  {
    hide Round1;
    assert IsTenth(0.0) && IsTenth(100.0);
    RoundIsNearest(0.0);
    RoundIsNearest(100.0);
    RoundMonotone(0.0, x);
    RoundMonotone(x, 100.0);
  }

  /** The fused and rounded score is at least every one-decimal score that went in. */
  lemma ScoreAtLeastMember(scores: seq<real>, i: nat)
    requires i < |scores| && 0.0 <= scores[i] <= 100.0 && IsTenth(scores[i])
    ensures Round1(NoisyOr(scores)) >= scores[i]
  {
    hide Round1, IsTenth;
    AtLeastEverySignal(scores, i);
    RoundMonotone(scores[i], NoisyOr(scores));
    RoundIsNearest(scores[i]);
  }

  /** A probability at or above the model's threshold is answered with at least a challenge in enforce mode, whatever the
      rules say, exactly if one of the two thresholds can be reached at all. */
  lemma ModelThresholdChallenges(rules: seq<real>, p: real, raw: real, c: Thresholds)
    requires c.mode.Enforce? && ModelThreshold(raw) <= p <= 1.0
    ensures
      var ml := Rescale(p, ModelThreshold(raw), c.challenge as real);
      Decide(TelemetryScore(rules, [ml]), c) in {Challenge, Block} <==> c.challenge <= 100 || c.block <= 100
  {
    hide Round1, IsTenth, Rescale, NoisyOr;
    var ml := Rescale(p, ModelThreshold(raw), c.challenge as real);
    RescaleBounds(p, ModelThreshold(raw), c.challenge as real);
    var scores := [NoisyOr(rules)] + [ml];
    TelemetryScoreFusesAll(rules, [ml]);
    AtLeastEverySignal(scores, 1);
    var bound := if c.challenge <= 100 then (if c.challenge < 0 then 0 else c.challenge) else 100;
    WholeIsTenth(bound);
    RoundIsNearest(bound as real);
    RoundMonotone(bound as real, NoisyOr(scores));
  }
}
