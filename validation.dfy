/** The stateful validator: true-positive, false-positive and false-negative
    counters, the accepted IoUs and the (confidence, is-true-positive) list,
    accumulated frame by frame, and the metrics read from them. */
module Validation {
  import opened Boxes
  import opened Matching
  import opened GreedyMatcher
  import opened RealArith

  /** The additive guard of every metric denominator. */
  const MetricEpsilon: real := 0.000000001

  /** An epsilon-guarded ratio of two counts, num / (den + MetricEpsilon):
      total, zero exactly when num is, below 1 when num <= den, and within
      MetricEpsilon of 1 when num == den > 0. */
  function GuardedRatio(num: nat, den: nat): (r: real)
    ensures r >= 0.0
    ensures r == 0.0 <==> num == 0
    ensures num <= den ==> r < 1.0
    ensures num == den && den > 0 ==> r > 1.0 - MetricEpsilon
  {
    var d := den as real + MetricEpsilon;
    var r := num as real / d;
    assert r * d == num as real;
    QuotientBelowOne(num as real, d);
    QuotientNearOne(num as real, MetricEpsilon);
    r
  }

  /** Two complementary rates over the same total add up to total / (total + eps). */
  lemma RatiosComplement(a: nat, b: nat)
    ensures GuardedRatio(a, a + b) + GuardedRatio(b, a + b) == GuardedRatio(a + b, a + b)
  {
    QuotientSum(a as real, b as real, (a + b) as real + MetricEpsilon);
  }

  /** The harmonic-mean formula of F1 over two values in [0, 1). */
  lemma F1Range(p: real, q: real)
    requires 0.0 <= p < 1.0 && 0.0 <= q < 1.0
    ensures 0.0 <= 2.0 * p * q / (p + q + MetricEpsilon) < 1.0
    ensures 2.0 * p * q / (p + q + MetricEpsilon) == 0.0 <==> p == 0.0 || q == 0.0
  {
    var m := p * q;
    FractionOf(q, p);
    FractionOf(p, q);
    assert q * p == m;
    assert 0.0 <= m <= p && m <= q;
    var n := 2.0 * p * q;
    assert n == 2.0 * m;
    var d := p + q + MetricEpsilon;
    assert 0.0 <= n < d;
    QuotientBelowOne(n, d);
    QuotientZeroIff(n, d);
    if p != 0.0 && q != 0.0 {
      ProductPositive(p, q);
    }
  }

  function Sum(s: seq<real>): real {
    if s == [] then 0.0 else s[0] + Sum(s[1..])
  }

  lemma {:induction false} SumAtLeast(s: seq<real>, c: real)
    requires forall v :: v in s ==> v >= c
    ensures Sum(s) >= |s| as real * c
  {
    if s != [] {
      assert forall v :: v in s[1..] ==> v in s;
      SumAtLeast(s[1..], c);
      assert s[0] in s;
    }
  }

  lemma {:induction false} SumPositive(s: seq<real>)
    requires s != []
    requires forall v :: v in s ==> v > 0.0
    ensures Sum(s) > 0.0
  {
    assert s[0] in s;
    if s[1..] != [] {
      assert forall v :: v in s[1..] ==> v in s;
      SumPositive(s[1..]);
    }
  }

  /** The mean of a non-empty list of positive values that all reach c is
      positive and reaches c. */
  lemma MeanAbove(s: seq<real>, c: real)
    requires s != []
    ensures (forall v :: v in s ==> v >= c && v > 0.0) ==>
      Sum(s) / |s| as real >= c && Sum(s) / |s| as real > 0.0
  {
    if forall v :: v in s ==> v >= c && v > 0.0 {
      SumAtLeast(s, c);
      SumPositive(s);
      QuotientAtLeast(Sum(s), |s| as real, c);
      QuotientPositive(Sum(s), |s| as real);
    }
  }

  // ---------------------------------------------------------------------
  // Specification of the dataset fold

  /** One frame: its ground-truth boxes and the detector's predictions. */
  datatype Frame = Frame(truth: seq<Box>, preds: seq<Prediction>)

  /** Adds one outcome to another: counts add, lists append. */
  function Combine(a: FrameResult, b: FrameResult): FrameResult {
    FrameResult(a.tp + b.tp, a.fp + b.fp, a.fn + b.fn,
                a.ious + b.ious, a.confidenceMatches + b.confidenceMatches)
  }

  lemma CombineAssociative(a: FrameResult, b: FrameResult, c: FrameResult)
    ensures Combine(Combine(a, b), c) == Combine(a, Combine(b, c))
  {
    assert (a.ious + b.ious) + c.ious == a.ious + (b.ious + c.ious);
    assert (a.confidenceMatches + b.confidenceMatches) + c.confidenceMatches ==
      a.confidenceMatches + (b.confidenceMatches + c.confidenceMatches);
  }

  /** The bookkeeping an accumulated outcome keeps after truthSeen ground-truth
      boxes and predictionsSeen predictions at IoU threshold thr. */
  ghost predicate Consistent(t: FrameResult, truthSeen: nat, predictionsSeen: nat, thr: real) {
    t.tp + t.fn == truthSeen && t.tp + t.fp == predictionsSeen &&
    |t.ious| == t.tp && (forall v :: v in t.ious ==> v >= thr && v > 0.0) &&
    |t.confidenceMatches| == t.tp + t.fp && CountTrue(t.confidenceMatches) == t.tp
  }

  /** Two consistent outcomes add up to a consistent outcome. */
  lemma CombineConsistent(a: FrameResult, truthA: nat, predictionsA: nat,
                          b: FrameResult, truthB: nat, predictionsB: nat, thr: real)
    requires Consistent(a, truthA, predictionsA, thr)
    requires Consistent(b, truthB, predictionsB, thr)
    ensures Consistent(Combine(a, b), truthA + truthB, predictionsA + predictionsB, thr)
  {
    CountTrueConcat(a.confidenceMatches, b.confidenceMatches);
  }

  /** The outcome of one frame is consistent with its sizes: every
      ground-truth box is one TP or FN, every prediction one TP or FP, one
      accepted IoU per TP, one confidence entry per prediction. */
  lemma MatchFrameConsistent(truth: seq<Box>, preds: seq<Prediction>, thr: real)
    ensures Consistent(MatchFrame(truth, preds, thr), |truth|, |preds|, thr)
  {
    MatchFrameCounts(truth, preds, thr);
    MatchFrameConfidenceMatches(truth, preds, thr);
  }

  /** What matching every frame in order adds to the accumulator. */
  function MatchFrames(frames: seq<Frame>, thr: real): FrameResult
    decreases |frames|
  {
    if frames == [] then FrameResult(0, 0, 0, [], [])
    else
      var last := frames[|frames| - 1];
      Combine(MatchFrames(frames[..|frames| - 1], thr), MatchFrame(last.truth, last.preds, thr))
  }

  function TruthCount(frames: seq<Frame>): nat
    decreases |frames|
  {
    if frames == [] then 0 else TruthCount(frames[..|frames| - 1]) + |frames[|frames| - 1].truth|
  }

  function PredictionCount(frames: seq<Frame>): nat
    decreases |frames|
  {
    if frames == [] then 0 else PredictionCount(frames[..|frames| - 1]) + |frames[|frames| - 1].preds|
  }

  /** The same bookkeeping holds over a whole dataset. */
  lemma {:induction false} MatchFramesConsistent(frames: seq<Frame>, thr: real)
    ensures Consistent(MatchFrames(frames, thr), TruthCount(frames), PredictionCount(frames), thr)
    decreases |frames|
  {
    if frames != [] {
      var init := frames[..|frames| - 1];
      var last := frames[|frames| - 1];
      MatchFramesConsistent(init, thr);
      MatchFrameConsistent(last.truth, last.preds, thr);
      CombineConsistent(MatchFrames(init, thr), TruthCount(init), PredictionCount(init),
                        MatchFrame(last.truth, last.preds, thr), |last.truth|, |last.preds|, thr);
    }
  }

  // ---------------------------------------------------------------------
  // Specification of mAP@0.5

  predicate SortedByConfidence(s: seq<(real, bool)>) {
    forall i, j :: 0 <= i < j < |s| ==> s[i].0 >= s[j].0
  }

  /** Inserts x before the first entry whose confidence is not larger. */
  function InsertByConfidence(x: (real, bool), s: seq<(real, bool)>): (r: seq<(real, bool)>)
    ensures multiset(r) == multiset(s) + multiset{x}
  {
    if s == [] || s[0].0 <= x.0 then [x] + s
    else
      assert s == [s[0]] + s[1..];
      [s[0]] + InsertByConfidence(x, s[1..])
  }

  /** Inserting below a bound c into a list below c stays below c. */
  lemma {:induction false} InsertBelow(x: (real, bool), s: seq<(real, bool)>, c: real)
    requires x.0 <= c && forall i :: 0 <= i < |s| ==> s[i].0 <= c
    ensures forall i :: 0 <= i < |InsertByConfidence(x, s)| ==> InsertByConfidence(x, s)[i].0 <= c
  {
    var r := InsertByConfidence(x, s);
    if s != [] && s[0].0 > x.0 {
      var t := InsertByConfidence(x, s[1..]);
      InsertBelow(x, s[1..], c);
      assert r == [s[0]] + t;
      forall i | 0 <= i < |r|
        ensures r[i].0 <= c
      {
        if i > 0 {
          assert r[i] == t[i - 1];
        } else {
          assert r[i] == s[0];
        }
      }
    } else {
      assert r == [x] + s;
      forall i | 0 <= i < |r|
        ensures r[i].0 <= c
      {
        if i > 0 {
          assert r[i] == s[i - 1];
        } else {
          assert r[i] == x;
        }
      }
    }
  }

  lemma {:induction false} InsertKeepsSorted(x: (real, bool), s: seq<(real, bool)>)
    requires SortedByConfidence(s)
    ensures SortedByConfidence(InsertByConfidence(x, s))
  {
    var r := InsertByConfidence(x, s);
    if s != [] && s[0].0 > x.0 {
      var t := InsertByConfidence(x, s[1..]);
      InsertKeepsSorted(x, s[1..]);
      InsertBelow(x, s[1..], s[0].0);
      assert r == [s[0]] + t;
      forall i, j | 0 <= i < j < |r|
        ensures r[i].0 >= r[j].0
      {
        assert r[j] == t[j - 1];
        if i > 0 {
          assert r[i] == t[i - 1];
        } else {
          assert r[i] == s[0];
        }
      }
    } else {
      assert r == [x] + s;
      forall i, j | 0 <= i < j < |r|
        ensures r[i].0 >= r[j].0
      {
        assert r[j] == s[j - 1];
        if i > 0 {
          assert r[i] == s[i - 1];
        } else {
          assert r[i] == x;
        }
      }
    }
  }

  /** The list in descending order of confidence, a permutation of s. */
  function SortByConfidence(s: seq<(real, bool)>): (r: seq<(real, bool)>)
    ensures SortedByConfidence(r)
    ensures multiset(r) == multiset(s)
  {
    if s == [] then []
    else
      assert s == [s[0]] + s[1..];
      InsertKeepsSorted(s[0], SortByConfidence(s[1..]));
      InsertByConfidence(s[0], SortByConfidence(s[1..]))
  }

  lemma {:induction false} InsertKeepsTrueCount(x: (real, bool), s: seq<(real, bool)>)
    ensures CountTrue(InsertByConfidence(x, s)) == CountTrue([x]) + CountTrue(s)
  {
    if s == [] || s[0].0 <= x.0 {
      CountTrueConcat([x], s);
    } else {
      InsertKeepsTrueCount(x, s[1..]);
      CountTrueConcat([s[0]], InsertByConfidence(x, s[1..]));
      CountTrueConcat([s[0]], s[1..]);
      assert s == [s[0]] + s[1..];
    }
  }

  /** Sorting keeps the number of true positives in the list. */
  lemma {:induction false} SortKeepsTrueCount(s: seq<(real, bool)>)
    ensures CountTrue(SortByConfidence(s)) == CountTrue(s)
  {
    if s != [] {
      SortKeepsTrueCount(s[1..]);
      InsertKeepsTrueCount(s[0], SortByConfidence(s[1..]));
      CountTrueConcat([s[0]], s[1..]);
      assert s == [s[0]] + s[1..];
    }
  }

  /** Recall after the first n entries of the ranked list. */
  function RecallAt(data: seq<(real, bool)>, totalGt: nat, n: nat): real
    requires n <= |data|
  {
    GuardedRatio(CountTrue(data[..n]), totalGt)
  }

  /** Precision after the first n entries of the ranked list. */
  function PrecisionAt(data: seq<(real, bool)>, n: nat): real
    requires n <= |data|
  {
    GuardedRatio(CountTrue(data[..n]), n)
  }

  /** The area under the precision-recall curve after one more step: the
      area so far plus precision times the recall gained. */
  function AreaAdded(area: real, precision: real, prevRecall: real, recall: real): real {
    area + precision * (recall - prevRecall)
  }

  /** The sum of precision times recall increase over the first n entries. */
  function AveragePrecisionUpTo(data: seq<(real, bool)>, totalGt: nat, n: nat): real
    requires n <= |data|
    decreases n
  {
    if n == 0 then 0.0
    else
      AreaAdded(AveragePrecisionUpTo(data, totalGt, n - 1), PrecisionAt(data, n),
                RecallAt(data, totalGt, n - 1), RecallAt(data, totalGt, n))
  }

  function AveragePrecision(data: seq<(real, bool)>, totalGt: nat): real {
    AveragePrecisionUpTo(data, totalGt, |data|)
  }

  /** One more ranked entry adds precision times the recall gained. A solver
      aid for the loop of RankedAveragePrecision only: it is the n + 1 case
      of AveragePrecisionUpTo with the multiplication written out. */
  lemma AveragePrecisionStep(data: seq<(real, bool)>, totalGt: nat, n: nat,
                             area: real, prevRecall: real, precision: real, recall: real)
    requires n < |data|
    requires area == AveragePrecisionUpTo(data, totalGt, n)
    requires prevRecall == RecallAt(data, totalGt, n)
    requires precision == PrecisionAt(data, n + 1) && recall == RecallAt(data, totalGt, n + 1)
    ensures area + precision * (recall - prevRecall) == AveragePrecisionUpTo(data, totalGt, n + 1)
  {
    assert AreaAdded(area, precision, prevRecall, recall) == AveragePrecisionUpTo(data, totalGt, n + 1);
    AreaAddedUnfold(area, precision, prevRecall, recall);
  }

  /** A solver aid only: the definition of AreaAdded unfolded. */
  lemma AreaAddedUnfold(area: real, precision: real, prevRecall: real, recall: real)
    ensures AreaAdded(area, precision, prevRecall, recall) == area + precision * (recall - prevRecall)
  {
  }

  /** A step from an area within [0, prevRecall], with a precision in [0, 1]
      and a recall that does not fall, ends within [0, recall]. */
  lemma AreaAddedBounds(area: real, precision: real, prevRecall: real, recall: real)
    requires 0.0 <= area <= prevRecall <= recall && 0.0 <= precision <= 1.0
    ensures 0.0 <= AreaAdded(area, precision, prevRecall, recall) <= recall
  {
    AreaStep(area, precision, prevRecall, recall);
  }

  lemma CountTrueStep(data: seq<(real, bool)>, n: nat)
    requires n < |data|
    ensures CountTrue(data[..n + 1]) == CountTrue(data[..n]) + (if data[n].1 then 1 else 0)
  {
    assert data[..n + 1] == data[..n] + [data[n]];
    CountTrueConcat(data[..n], [data[n]]);
  }

  lemma RatioMonotone(a: nat, b: nat, den: nat)
    requires a <= b
    ensures GuardedRatio(a, den) <= GuardedRatio(b, den)
  {
    assert GuardedRatio(b - a, den) >= 0.0;
    QuotientSum(a as real, (b - a) as real, den as real + MetricEpsilon);
  }

  /** Recall never decreases along the ranked list. */
  lemma RecallMonotone(data: seq<(real, bool)>, totalGt: nat, i: nat, j: nat)
    requires i <= j <= |data|
    ensures RecallAt(data, totalGt, i) <= RecallAt(data, totalGt, j)
  {
    assert data[..j] == data[..i] + data[i..j];
    CountTrueConcat(data[..i], data[i..j]);
    RatioMonotone(CountTrue(data[..i]), CountTrue(data[..j]), totalGt);
  }

  /** The accumulated AP is non-negative and never exceeds the recall reached. */
  lemma {:induction false} AveragePrecisionBounds(data: seq<(real, bool)>, totalGt: nat, n: nat)
    requires n <= |data|
    ensures 0.0 <= AveragePrecisionUpTo(data, totalGt, n) <= RecallAt(data, totalGt, n)
    decreases n
  {
    if n > 0 {
      var before := AveragePrecisionUpTo(data, totalGt, n - 1);
      var p := PrecisionAt(data, n);
      var rPrev := RecallAt(data, totalGt, n - 1);
      var rNext := RecallAt(data, totalGt, n);
      assert 0.0 <= before <= rPrev by {
        AveragePrecisionBounds(data, totalGt, n - 1);
      }
      assert rPrev <= rNext by {
        RecallMonotone(data, totalGt, n - 1, n);
      }
      assert 0.0 <= p <= 1.0 by {
        assert CountTrue(data[..n]) <= |data[..n]| == n;
      }
      assert AveragePrecisionUpTo(data, totalGt, n) == AreaAdded(before, p, rPrev, rNext);
      AreaAddedBounds(before, p, rPrev, rNext);
    }
  }

  /** mAP of an empty list is 0; otherwise it lies in [0, final recall],
      which is below 1 when the list holds no more true entries than there
      are ground-truth boxes. */
  lemma AveragePrecisionRange(data: seq<(real, bool)>, totalGt: nat)
    ensures data == [] ==> AveragePrecision(data, totalGt) == 0.0
    ensures 0.0 <= AveragePrecision(data, totalGt) <= GuardedRatio(CountTrue(data), totalGt)
    ensures CountTrue(data) <= totalGt ==> AveragePrecision(data, totalGt) < 1.0
  {
    AveragePrecisionBounds(data, totalGt, |data|);
    assert data[..|data|] == data;
  }

  /** The accumulation loop of mAP@0.5 over an already ranked list. */
  method RankedAveragePrecision(data: seq<(real, bool)>, totalGt: nat) returns (ap: real)
    ensures ap == AveragePrecision(data, totalGt)
  {
    var tpCum: nat := 0;
    var fpCum: nat := 0;
    ap := 0.0;
    var prevRecall := 0.0;
    for i := 0 to |data|
      invariant tpCum + fpCum == i
      invariant tpCum == CountTrue(data[..i])
      invariant prevRecall == RecallAt(data, totalGt, i)
      invariant ap == AveragePrecisionUpTo(data, totalGt, i)
    {
      CountTrueStep(data, i);
      if data[i].1 {
        tpCum := tpCum + 1;
      } else {
        fpCum := fpCum + 1;
      }
      var precision := GuardedRatio(tpCum, tpCum + fpCum);
      var recall := GuardedRatio(tpCum, totalGt);
      AveragePrecisionStep(data, totalGt, i, ap, prevRecall, precision, recall);
      ap := ap + precision * (recall - prevRecall);
      prevRecall := recall;
    }
  }

  /** The bounds of AveragePrecisionRange for the ranking of an unsorted list. */
  lemma RankedRange(s: seq<(real, bool)>, totalGt: nat, ap: real)
    requires ap == AveragePrecision(SortByConfidence(s), totalGt)
    ensures s == [] ==> ap == 0.0
    ensures 0.0 <= ap <= GuardedRatio(CountTrue(s), totalGt)
    ensures CountTrue(s) <= totalGt ==> ap < 1.0
  {
    AveragePrecisionRange(SortByConfidence(s), totalGt);
    SortKeepsTrueCount(s);
  }

  // ---------------------------------------------------------------------
  // The accumulator

  class Validator {
    var tp: nat
    var fp: nat
    var fn: nat
    const iouThr: real
    var ious: seq<real>
    var confidenceMatches: seq<(real, bool)>

    /** Ground-truth boxes and predictions fed to Match so far. */
    ghost var truthSeen: nat
    ghost var predictionsSeen: nat

    /** The five accumulators as one outcome. */
    function Totals(): FrameResult
      reads this
    {
      FrameResult(tp, fp, fn, ious, confidenceMatches)
    }

    ghost predicate Valid()
      reads this
    {
      Consistent(Totals(), truthSeen, predictionsSeen, iouThr)
    }

    constructor (iouThr: real := 0.5)
      ensures Valid()
      ensures this.iouThr == iouThr
      ensures tp == 0 && fp == 0 && fn == 0 && ious == [] && confidenceMatches == []
      ensures truthSeen == 0 && predictionsSeen == 0
    {
      tp, fp, fn := 0, 0, 0;
      this.iouThr := iouThr;
      ious, confidenceMatches := [], [];
      truthSeen, predictionsSeen := 0, 0;
    }

    /** Matches one frame greedily and adds its outcome to the counters. */
    method Match(truth: seq<Box>, preds: seq<Prediction>)
      requires Valid()
      modifies this
      ensures Valid()
      ensures Totals() == Combine(old(Totals()), MatchFrame(truth, preds, iouThr))
      ensures truthSeen == old(truthSeen) + |truth|
      ensures predictionsSeen == old(predictionsSeen) + |preds|
    {
      var matchedPreds, frameTp, frameFn, frameIous, frameMatches := GreedyPass(truth, preds, iouThr);
      var frameFp, leftovers := CollectLeftovers(preds, matchedPreds);
      var frame := FrameResult(frameTp, frameFp, frameFn, frameIous, frameMatches + leftovers);
      assert frame == MatchFrame(truth, preds, iouThr);
      MatchFrameConsistent(truth, preds, iouThr);
      Add(frame, |truth|, |preds|);
    }

    /** Adds one frame's outcome to the accumulators. */
    method Add(frame: FrameResult, truthCount: nat, predictionCount: nat)
      requires Valid() && Consistent(frame, truthCount, predictionCount, iouThr)
      modifies this
      ensures Valid()
      ensures Totals() == Combine(old(Totals()), frame)
      ensures truthSeen == old(truthSeen) + truthCount
      ensures predictionsSeen == old(predictionsSeen) + predictionCount
    {
      CombineConsistent(Totals(), truthSeen, predictionsSeen,
                        frame, truthCount, predictionCount, iouThr);
      tp, fp, fn := tp + frame.tp, fp + frame.fp, fn + frame.fn;
      ious := ious + frame.ious;
      confidenceMatches := confidenceMatches + frame.confidenceMatches;
      truthSeen := truthSeen + truthCount;
      predictionsSeen := predictionsSeen + predictionCount;
    }

    /** Matches every frame in order. The counters are not reset first, so
        repeated calls keep accumulating. */
    method Validate(frames: seq<Frame>)
      requires Valid()
      modifies this
      ensures Valid()
      ensures Totals() == Combine(old(Totals()), MatchFrames(frames, iouThr))
      ensures truthSeen == old(truthSeen) + TruthCount(frames)
      ensures predictionsSeen == old(predictionsSeen) + PredictionCount(frames)
    {
      for k := 0 to |frames|
        invariant Valid()
        invariant Totals() == Combine(old(Totals()), MatchFrames(frames[..k], iouThr))
        invariant truthSeen == old(truthSeen) + TruthCount(frames[..k])
        invariant predictionsSeen == old(predictionsSeen) + PredictionCount(frames[..k])
      {
        assert frames[..k + 1][..k] == frames[..k];
        CombineAssociative(old(Totals()), MatchFrames(frames[..k], iouThr),
                           MatchFrame(frames[k].truth, frames[k].preds, iouThr));
        Match(frames[k].truth, frames[k].preds);
      }
      assert frames[..|frames|] == frames;
    }

    function Precision(): (r: real)
      reads this
      ensures 0.0 <= r < 1.0
      ensures r == 0.0 <==> tp == 0
      ensures fp == 0 && tp > 0 ==> r > 1.0 - MetricEpsilon
    {
      GuardedRatio(tp, tp + fp)
    }

    function Recall(): (r: real)
      reads this
      ensures 0.0 <= r < 1.0
      ensures r == 0.0 <==> tp == 0
      ensures fn == 0 && tp > 0 ==> r > 1.0 - MetricEpsilon
    {
      GuardedRatio(tp, tp + fn)
    }

    function F1(): (r: real)
      reads this
      ensures 0.0 <= r < 1.0
      ensures r == 0.0 <==> tp == 0
    {
      var p := Precision();
      var q := Recall();
      F1Range(p, q);
      2.0 * p * q / (p + q + MetricEpsilon)
    }

    function MeanIou(): (r: real)
      reads this
      ensures ious == [] ==> r == 0.0
      ensures Valid() && ious != [] ==> r >= iouThr && r > 0.0
    {
      if ious != [] then
        MeanAbove(ious, iouThr);
        Sum(ious) / |ious| as real
      else 0.0
    }

    function FalsePositiveRate(): (r: real)
      reads this
      ensures 0.0 <= r < 1.0
      ensures r == 0.0 <==> fp == 0
      ensures r + Precision() == GuardedRatio(tp + fp, tp + fp)
    {
      RatiosComplement(tp, fp);
      GuardedRatio(fp, fp + tp)
    }

    function FalseNegativeRate(): (r: real)
      reads this
      ensures 0.0 <= r < 1.0
      ensures r == 0.0 <==> fn == 0
      ensures r + Recall() == GuardedRatio(tp + fn, tp + fn)
    {
      RatiosComplement(tp, fn);
      GuardedRatio(fn, tp + fn)
    }

    /** Ranks the confidence matches by descending confidence and sums
        precision times recall increase along the ranking. */
    method Map50() returns (ap: real)
      ensures ap == AveragePrecision(SortByConfidence(confidenceMatches), tp + fn)
      ensures confidenceMatches == [] ==> ap == 0.0
      ensures 0.0 <= ap <= GuardedRatio(CountTrue(confidenceMatches), tp + fn)
      ensures CountTrue(confidenceMatches) <= tp + fn ==> ap < 1.0
      ensures Valid() ==> ap <= Recall()
    {
      var matches, totalGt := confidenceMatches, tp + fn;
      if matches == [] {
        ap := 0.0;
        assert SortByConfidence(matches) == [];
      } else {
        var data := SortByConfidence(matches);
        ap := RankedAveragePrecision(data, totalGt);
      }
      RankedRange(matches, totalGt, ap);
    }
  }
}
