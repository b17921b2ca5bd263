/** The stand-alone frame matcher used when comparing detector output with
    the original annotations: it returns only the three counts, and it
    accepts a ground-truth box on the IoU threshold alone. */
module LabelParsing {
  import opened Boxes
  import opened Matching
  import opened GreedyMatcher

  /** The matched ground-truth indices and the matched prediction indices. */
  datatype Matched = Matched(truth: set<int>, preds: set<int>)

  /** The outer loop over gtBoxes[..k]: a ground-truth box is matched as soon
      as the best IoU reaches thr, and the index of the best prediction is
      recorded even when the scan found none (index -1). */
  function MatchSets(gtBoxes: seq<Box>, preds: seq<Prediction>, thr: real, k: nat): (m: Matched)
    requires k <= |gtBoxes|
    decreases k
  {
    if k == 0 then Matched({}, {})
    else
      var m := MatchSets(gtBoxes, preds, thr, k - 1);
      var b := ScanBest(gtBoxes[k - 1], preds, m.preds, |preds|);
      if b.iou >= thr then Matched(m.truth + {k - 1}, m.preds + {b.index}) else m
  }

  /** tp is the number of matched boxes, fn the rest of the boxes, and fp the
      predictions minus the recorded prediction indices. */
  function Counts(gtBoxes: seq<Box>, preds: seq<Prediction>, thr: real): (int, int, int) {
    var m := MatchSets(gtBoxes, preds, thr, |gtBoxes|);
    (|m.truth|, |preds| - |m.preds|, |gtBoxes| - |m.truth|)
  }

  /** Matched ground-truth indices lie below k. */
  lemma {:induction false} MatchSetsRange(gtBoxes: seq<Box>, preds: seq<Prediction>, thr: real, k: nat)
    requires k <= |gtBoxes|
    ensures forall i :: i in MatchSets(gtBoxes, preds, thr, k).truth ==> 0 <= i < k
    decreases k
  {
    if k > 0 {
      MatchSetsRange(gtBoxes, preds, thr, k - 1);
    }
  }

  /** One step of the outer loop, spelled out. A solver aid for the loop
      proofs only: it is the definition of MatchSets unfolded once. */
  lemma MatchSetsStep(gtBoxes: seq<Box>, preds: seq<Prediction>, thr: real, k: nat)
    requires k < |gtBoxes|
    ensures var m := MatchSets(gtBoxes, preds, thr, k);
      var b := ScanBest(gtBoxes[k], preds, m.preds, |preds|);
      MatchSets(gtBoxes, preds, thr, k + 1) ==
        if b.iou >= thr then Matched(m.truth + {k}, m.preds + {b.index}) else m
  {
  }

  /** With a positive threshold the loop makes the same choices as the
      guarded matcher: the recorded prediction indices are exactly the
      consumed ones and every matched box is one true positive. */
  lemma {:induction false} MatchSetsAgree(gtBoxes: seq<Box>, preds: seq<Prediction>, thr: real, k: nat)
    requires thr > 0.0 && k <= |gtBoxes|
    ensures var m := MatchSets(gtBoxes, preds, thr, k);
      var g := Greedy(gtBoxes, preds, thr, k);
      m.preds == g.consumed && |m.truth| == g.tp
    decreases k
  {
    if k > 0 {
      MatchSetsAgree(gtBoxes, preds, thr, k - 1);
      MatchSetsRange(gtBoxes, preds, thr, k - 1);
      var m := MatchSets(gtBoxes, preds, thr, k - 1);
      var g := Greedy(gtBoxes, preds, thr, k - 1);
      var b := ScanBest(gtBoxes[k - 1], preds, m.preds, |preds|);
      assert b == ScanBest(gtBoxes[k - 1], preds, g.consumed, |preds|);
      var m' := MatchSets(gtBoxes, preds, thr, k);
      var g' := Greedy(gtBoxes, preds, thr, k);
      if b.iou >= thr {
        assert b.index != -1;
        assert m' == Matched(m.truth + {k - 1}, m.preds + {b.index});
        assert g'.consumed == g.consumed + {b.index} && g'.tp == g.tp + 1;
        assert k - 1 !in m.truth;
        AddFresh(m.truth, k - 1);
      } else {
        assert m' == m;
        assert g'.consumed == g.consumed && g'.tp == g.tp;
      }
    }
  }

  /** With a threshold of at most 0 every ground-truth box is matched, whether
      or not any prediction overlaps it. */
  lemma {:induction false} NonPositiveThresholdMatchesAll(gtBoxes: seq<Box>, preds: seq<Prediction>,
                                                          thr: real, k: nat)
    requires thr <= 0.0 && k <= |gtBoxes|
    ensures |MatchSets(gtBoxes, preds, thr, k).truth| == k
    decreases k
  {
    if k > 0 {
      NonPositiveThresholdMatchesAll(gtBoxes, preds, thr, k - 1);
      MatchSetsRange(gtBoxes, preds, thr, k - 1);
      MatchSetsStep(gtBoxes, preds, thr, k - 1);
      var m := MatchSets(gtBoxes, preds, thr, k - 1);
      var b := ScanBest(gtBoxes[k - 1], preds, m.preds, |preds|);
      assert b.iou >= thr;
      AddFresh(m.truth, k - 1);
    }
  }

  /** The counts of the matcher as written: tp is bounded by the number of
      ground-truth boxes and tp + fn is exactly that number; a threshold of
      at most 0 makes every box a true positive, and a positive threshold
      gives the counts of the guarded matcher, so fp is then not negative. */
  lemma CountsProperties(gtBoxes: seq<Box>, preds: seq<Prediction>, thr: real)
    ensures var c := Counts(gtBoxes, preds, thr);
      0 <= c.0 <= |gtBoxes| && c.0 + c.2 == |gtBoxes|
    ensures var c := Counts(gtBoxes, preds, thr);
      thr <= 0.0 ==> c.0 == |gtBoxes| && c.2 == 0
    ensures var c := Counts(gtBoxes, preds, thr);
      var r := MatchFrame(gtBoxes, preds, thr);
      thr > 0.0 ==> c.0 == r.tp && c.1 == r.fp && c.2 == r.fn && c.1 >= 0
  {
    MatchSetsRange(gtBoxes, preds, thr, |gtBoxes|);
    SetWithin(MatchSets(gtBoxes, preds, thr, |gtBoxes|).truth, |gtBoxes|);
    if thr <= 0.0 {
      NonPositiveThresholdMatchesAll(gtBoxes, preds, thr, |gtBoxes|);
    } else {
      MatchSetsAgree(gtBoxes, preds, thr, |gtBoxes|);
      GreedyConsumed(gtBoxes, preds, thr, |gtBoxes|);
      MatchFrameCounts(gtBoxes, preds, thr);
    }
  }

  /** A set of indices below n has at most n elements. */
  lemma {:induction false} SetWithin(s: set<int>, n: nat)
    requires forall i :: i in s ==> 0 <= i < n
    ensures |s| <= n
    decreases n
  {
    if n > 0 {
      var s' := s - {n - 1};
      SetWithin(s', n - 1);
    } else {
      assert forall i :: i !in s;
      assert s == {};
    }
  }

  /** The frame matcher as written: the same scan as the validator's, kept
      in matched_pred, without the check that a prediction was found. */
  method MatchPredictions(gtBoxes: seq<Box>, preds: seq<Prediction>, iouThr: real := 0.5)
    returns (tp: int, fp: int, fn: int)
    ensures (tp, fp, fn) == Counts(gtBoxes, preds, iouThr)
    ensures 0 <= tp <= |gtBoxes| && tp + fn == |gtBoxes|
    ensures iouThr <= 0.0 ==> tp == |gtBoxes| && fn == 0
    ensures iouThr > 0.0 ==>
      var r := MatchFrame(gtBoxes, preds, iouThr);
      tp == r.tp && fp == r.fp && fn == r.fn && fp >= 0
  {
    var matchedGt: set<int> := {};
    var matchedPred: set<int> := {};
    for gi := 0 to |gtBoxes|
      invariant Matched(matchedGt, matchedPred) == MatchSets(gtBoxes, preds, iouThr, gi)
    {
      var bestIou, bestPi := FindBest(gtBoxes[gi], preds, matchedPred);
      ghost var next := MatchSets(gtBoxes, preds, iouThr, gi + 1);
      if bestIou >= iouThr {
        assert next == Matched(matchedGt + {gi}, matchedPred + {bestPi});
        matchedGt := matchedGt + {gi};
        matchedPred := matchedPred + {bestPi};
      } else {
        assert next == Matched(matchedGt, matchedPred);
      }
    }
    tp := |matchedGt|;
    fn := |gtBoxes| - tp;
    fp := |preds| - |matchedPred|;
    CountsProperties(gtBoxes, preds, iouThr);
  }

  /** One unmatched ground-truth box and no predictions at threshold 0: the
      box is counted as a true positive and the false positives come out as
      -1, because index -1 is recorded as a matched prediction; the guarded
      matcher reports one false negative and no false positive. */
  lemma NonPositiveThresholdCounterexample()
    ensures Counts([Box(0, 0, 10, 10)], [], 0.0) == (1, -1, 0)
    ensures var r := MatchFrame([Box(0, 0, 10, 10)], [], 0.0);
      (r.tp, r.fp, r.fn) == (0, 0, 1)
  {
    var gt := [Box(0, 0, 10, 10)];
    var none: seq<Prediction> := [];
    var b := ScanBest(gt[0], none, {}, 0);
    assert b == Best(0.0, -1);
    var m := MatchSets(gt, none, 0.0, 1);
    assert MatchSets(gt, none, 0.0, 0) == Matched({}, {});
    assert m == Matched({0}, {-1});
    assert |m.truth| == 1 && |m.preds| == 1;
    var g := Greedy(gt, none, 0.0, 1);
    assert Greedy(gt, none, 0.0, 0) == Progress({}, 0, 0, [], []);
    assert g == Progress({}, 0, 1, [], []);
    assert Leftovers(none, {}, 0) == [];
  }

  /** The matcher with the missing check added (a ground-truth box is matched
      only when a prediction was found): its counts are those of the greedy
      validator for every threshold, so fp is never negative and every
      prediction is one true or false positive. */
  method MatchPredictionsGuarded(gtBoxes: seq<Box>, preds: seq<Prediction>, iouThr: real := 0.5)
    returns (tp: int, fp: int, fn: int)
    ensures var r := MatchFrame(gtBoxes, preds, iouThr);
      tp == r.tp && fp == r.fp && fn == r.fn
    ensures 0 <= tp && 0 <= fp && 0 <= fn
    ensures tp + fn == |gtBoxes| && tp + fp == |preds|
  {
    var matchedPred, matched, missed, _, _ := GreedyPass(gtBoxes, preds, iouThr);
    GreedyConsumed(gtBoxes, preds, iouThr, |gtBoxes|);
    MatchFrameCounts(gtBoxes, preds, iouThr);
    tp := matched;
    fn := |gtBoxes| - tp;
    fp := |preds| - |matchedPred|;
  }
}
