/** The loops of the frame matcher, each proved against the specification
    functions of Matching. */
module GreedyMatcher {
  import opened Boxes
  import opened Matching

  /** The inner loop of the frame matcher: scans every prediction not yet consumed and
      keeps the first one of strictly largest IoU with gt. */
  method FindBest(gt: Box, preds: seq<Prediction>, consumed: set<int>)
    returns (bestIou: real, bestIndex: int)
    ensures Best(bestIou, bestIndex) == ScanBest(gt, preds, consumed, |preds|)
  {
    bestIou, bestIndex := 0.0, -1;
    for i := 0 to |preds|
      invariant Best(bestIou, bestIndex) == ScanBest(gt, preds, consumed, i)
    {
      if i in consumed {
        continue;
      }
      var v := IoU(gt, preds[i].bbox);
      if v > bestIou {
        bestIou, bestIndex := v, i;
      }
    }
  }

  /** The outer loop of the frame matcher: every ground-truth box in order
      takes its best unconsumed prediction when that IoU reaches thr. */
  method GreedyPass(truth: seq<Box>, preds: seq<Prediction>, thr: real)
    returns (consumed: set<int>, tp: nat, fn: nat, ious: seq<real>, hits: seq<(real, bool)>)
    ensures Progress(consumed, tp, fn, ious, hits) == Greedy(truth, preds, thr, |truth|)
  {
    consumed, tp, fn, ious, hits := {}, 0, 0, [], [];
    for g := 0 to |truth|
      invariant Progress(consumed, tp, fn, ious, hits) == Greedy(truth, preds, thr, g)
    {
      var maxIou, maxIouIndex := FindBest(truth[g], preds, consumed);
      GreedyStep(truth, preds, thr, g);
      ghost var next := Greedy(truth, preds, thr, g + 1);
      if maxIou >= thr && maxIouIndex != -1 {
        var hit := (preds[maxIouIndex].confidence, true);
        assert next == Progress(consumed + {maxIouIndex}, tp + 1, fn, ious + [maxIou], hits + [hit]);
        tp := tp + 1;
        consumed := consumed + {maxIouIndex};
        ious := ious + [maxIou];
        hits := hits + [hit];
      } else {
        assert next == Progress(consumed, tp, fn + 1, ious, hits);
        fn := fn + 1;
      }
    }
  }

  /** The closing loop of the frame matcher: one (confidence, false) entry
      per prediction never consumed, in index order, and their number. */
  method CollectLeftovers(preds: seq<Prediction>, consumed: set<int>)
    returns (count: nat, left: seq<(real, bool)>)
    ensures left == Leftovers(preds, consumed, |preds|)
    ensures count == |left|
  {
    count, left := 0, [];
    for i := 0 to |preds|
      invariant left == Leftovers(preds, consumed, i)
      invariant count == |left|
    {
      if i !in consumed {
        count := count + 1;
        left := left + [(preds[i].confidence, false)];
      }
    }
  }
}
