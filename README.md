# Detection validation engine — a Dafny model

This project models the validation logic of a person detector for railway
video. A frame's ground-truth boxes are matched one-to-one against the
detector's scored boxes by greedy intersection over union (IoU). The
resulting true-positive (TP), false-positive (FP) and false-negative (FN)
counts are accumulated over a dataset. Precision, recall, F1, mean IoU, the
two error rates and mAP@0.5 are then read from the accumulated state.

The model has six modules:

- `Boxes` (boxes.dfy): integer pixel boxes, scored detections and the
  epsilon-guarded IoU. The same formula appears twice in the source,
  `Validator.iou` and the free function `iou` in label_parsing.py, and is
  modelled once.
- `Matching` (matching.dfy): the pure specification of `Validator.match`.
  - `ScanBest` is the inner scan for the best unconsumed prediction.
  - `Greedy` is the outer pass over the ground-truth boxes.
  - `Leftovers` covers the trailing false-positive loop.
  - `MatchFrame` is what one call adds to the accumulator.
- `GreedyMatcher` (greedy_matcher.dfy): the three loops of
  `Validator.match` as methods, each proved equal to its specification
  function.
- `Validation` (validation.dfy) holds the class `Validator`:
  - its five accumulators, the constructor, `Match`, `Validate` as a fold
    over in-memory frames, the metric readers and `Map50`;
  - the specification of the fold (`MatchFrames`) and of mAP@0.5
    (`SortByConfidence`, `AveragePrecision`);
  - the method `RankedAveragePrecision` holding the accumulation loop of
    `map_50`.
- `LabelParsing` (label_parsing.dfy): `match_predictions` as written, its
  functional model `MatchSets`/`Counts`, and a variant with the missing
  guard added.
- `RealArith` (arith.dfy) holds helper lemmas on real arithmetic.

Every ratio uses exact `real` arithmetic with the source's epsilons:
`1e-6` in the IoU and `1e-9` in every metric. The class invariant
`Validator.Valid` says:

- tp + fn is the number of ground-truth boxes seen;
- tp + fp is the number of predictions seen;
- there is one accepted IoU per TP, each at least the threshold and
  positive;
- there is one confidence entry per prediction, and exactly tp of them are
  marked true.

`Match`, `Add` and `Validate` preserve the invariant. They also state the
whole new state as the old one combined with the specification's outcome.

## Model

| member | source | states |
|---|---|---|
| Boxes.Intersection | validation.py:78-83 | the intersection area is never negative, and it is positive exactly when the interiors of the two boxes overlap |
| Boxes.IoU | validation.py:77-87 | the IoU is 0 exactly when the boxes do not overlap (the body also checks that the denominator union + 1e-6 is never 0, so the function is total) |
| Boxes.IoUSymmetric | label_parsing.py:19-29 | iou(a, b) == iou(b, a), for the formula shared by both source copies |
| Boxes.IoUPositiveIffOverlap | validation.py:77-87 | the IoU is positive if and only if the boxes overlap |
| Boxes.IntersectionWithin | validation.py:78-85 | for well-formed boxes the intersection is at most the area of each box |
| Boxes.IoURange | validation.py:77-87 | for well-formed boxes the IoU lies in [0, 1) |
| Boxes.IoUSelf | validation.py:77-87 | a well-formed box of positive area has a self-IoU strictly between 1 - 1e-6 and 1 |
| Matching.ScanBest | validation.py:20-31 | the scan's result is either no choice (index -1) with IoU 0, or an in-range index that was not consumed and has positive IoU |
| Matching.ScanBestMaximal | validation.py:23-31 | the chosen IoU is that of the chosen prediction; no unconsumed prediction has a larger IoU; every unconsumed prediction before the chosen index has a smaller one, so ties go to the lowest index |
| Matching.Greedy | validation.py:19-42 | each ground-truth box takes exactly one branch: tp + fn equals the number of boxes processed |
| Matching.GreedyConsumed | validation.py:25-36 | the consumed prediction indices are in range, and there is one distinct index per true positive |
| Matching.GreedyIous | validation.py:29-37 | one IoU is appended per true positive, each at least the threshold and positive |
| Matching.GreedyHits | validation.py:34-40 | one (confidence, True) entry is appended per true positive |
| Matching.Leftovers | validation.py:45-50 | there is one (confidence, False) entry per unconsumed prediction, and together with the consumed ones they account for every prediction |
| Matching.MatchFrame | validation.py:14-50 | specification of what one call of `match` adds to the accumulators; no contract of its own: MatchFrameCounts, MatchFrameConfidenceMatches and MatchFrameEntries state its properties |
| Matching.MatchFrameCounts | validation.py:14-50 | for one frame, tp + fn equals the number of ground-truth boxes and tp + fp equals the number of predictions; there is one accepted IoU per TP, each at least the threshold and positive |
| Matching.MatchFrameConfidenceMatches | validation.py:38-50 | one confidence entry per prediction: the first tp entries are true and the rest false, so the true and false entries number exactly tp and fp |
| Matching.GreedyHitsContent | validation.py:34-40 | as a multiset, the hits appended by the outer loop are the (confidence, True) entries of the consumed predictions, one per consumed index (through TrueEntriesAdd: consuming index x adds exactly x's entry) |
| Matching.EntriesSplit | validation.py:34-50 | the per-prediction reference list `Entries` (one (confidence, consumed?) entry per prediction, in index order) is, as a multiset, the consumed predictions' true entries plus the trailing loop's `Leftovers` |
| Matching.MatchFrameEntries | validation.py:34-50 | as a multiset, one frame's confidence matches are `Entries` over the final consumed set: one entry per prediction carrying that prediction's own confidence, flagged True exactly when the prediction was matched |
| GreedyMatcher.FindBest | validation.py:20-31 | the inner loop with its `continue` and strict `>` returns exactly the scan result `ScanBest` |
| GreedyMatcher.GreedyPass | validation.py:19-42 | the outer loop's consumed set, counters and appended lists are exactly `Greedy` over all ground-truth boxes |
| GreedyMatcher.CollectLeftovers | validation.py:45-50 | the trailing loop appends exactly `Leftovers`, and its FP count is the number of entries appended |
| Validation.GuardedRatio | validation.py:66-70 | n / (d + 1e-9) is total, never negative, 0 exactly when n is 0, below 1 when n <= d, and within 1e-9 of 1 when n == d > 0 |
| Validation.RatiosComplement | validation.py:92-96 | a rate and its complementary rate over the same total add up to total / (total + 1e-9) |
| Validation.F1Range | validation.py:72-75 | for p, r in [0, 1) the F1 formula lies in [0, 1) and is 0 exactly when p or r is 0 |
| Validation.MeanAbove | validation.py:89-90 | the mean `Sum(s) / |s|` of a non-empty list of positive values that all reach c is positive and reaches c |
| Validation.CombineAssociative | validation.py:52-64 | folding frame outcomes into the accumulators is associative |
| Validation.CombineConsistent | validation.py:14-50 | two consistent outcomes add up to an outcome consistent with the summed box and prediction counts |
| Validation.MatchFrameConsistent | validation.py:14-50 | one frame's outcome is consistent with the frame's numbers of boxes and predictions |
| Validation.MatchFrames | validation.py:52-64 | specification of the in-order fold of `match` over a dataset; no contract of its own: MatchFramesConsistent states the dataset-wide counting invariant |
| Validation.MatchFramesConsistent | validation.py:52-64 | the outcome of matching a whole dataset is consistent with its total numbers of boxes and predictions |
| Validation.InsertByConfidence | validation.py:102 | insertion adds exactly the new entry to the multiset of entries |
| Validation.InsertKeepsSorted | validation.py:102 | inserting into a list sorted by descending confidence keeps it sorted |
| Validation.SortByConfidence | validation.py:102 | the result is sorted by descending confidence and is a permutation of the input |
| Validation.SortKeepsTrueCount | validation.py:102 | sorting keeps the number of true-positive entries |
| Validation.AveragePrecisionUpTo | validation.py:104-120 | specification of the area accumulated over the first n ranked entries; no contract of its own: step n adds `AreaAdded` of the area so far, `PrecisionAt` and `RecallAt` after n entries and the previous recall (validation.py:116-119); its bounds are stated by AveragePrecisionBounds and RecallMonotone, and RankedAveragePrecision's loop invariant ties `ap` to it |
| Validation.AveragePrecision | validation.py:104-122 | specification of the value `map_50` returns for an already ranked list; no contract of its own: AveragePrecisionRange states that it is 0 on an empty list and lies in [0, final recall] |
| Validation.RecallMonotone | validation.py:117-120 | recall never decreases along the ranked list |
| Validation.AveragePrecisionBounds | validation.py:104-120 | ap stays at or above 0 and never exceeds the recall reached so far |
| Validation.AveragePrecisionRange | validation.py:98-122 | mAP is 0 on an empty list and lies in [0, final recall]; it is below 1 when the list holds no more true entries than there are ground-truth boxes |
| Validation.RankedAveragePrecision | validation.py:104-122 | the loop invariants include tp_cum + fp_cum == i, tp_cum is the true entries so far, and ap and prev_recall match the area and recall after i entries; the result is the area over the whole ranked list |
| Validation.RankedRange | validation.py:98-122 | for the ranking of any list of confidence matches, the mAP bounds above hold in terms of the unsorted list's true count |
| Validation.Validator.constructor | validation.py:4-11 | every counter is 0, both lists are empty, the threshold is the argument (0.5 by default), and the invariant holds |
| Validation.Validator.Match | validation.py:14-50 | preserves the invariant; the new accumulators are the old ones combined with the outcome `MatchFrame` of the frame |
| Validation.Validator.Add | validation.py:34-50 | the new state is `Combine` of the old accumulators and one frame's outcome: counters added, IoU and confidence lists appended; preserves the invariant |
| Validation.Validator.Validate | validation.py:52-64 | preserves the invariant; the new accumulators are the old ones combined with the outcome of all frames in order, with no reset |
| Validation.Validator.Precision | validation.py:66-67 | total and in [0, 1); 0 exactly when tp is 0; within 1e-9 of 1 when there is no FP and some TP |
| Validation.Validator.Recall | validation.py:69-70 | total and in [0, 1); 0 exactly when tp is 0; within 1e-9 of 1 when there is no FN and some TP |
| Validation.Validator.F1 | validation.py:72-75 | in [0, 1), and 0 exactly when tp is 0 |
| Validation.Validator.MeanIou | validation.py:89-90 | 0.0 when no IoU was accepted; otherwise, under the invariant, positive and at least the IoU threshold; the body divides `Sum` of the accepted IoUs by their number, and MeanAbove gives the bound |
| Validation.Validator.FalsePositiveRate | validation.py:92-93 | in [0, 1), 0 exactly when fp is 0, and its sum with precision is (tp + fp) / (tp + fp + 1e-9) |
| Validation.Validator.FalseNegativeRate | validation.py:95-96 | in [0, 1), 0 exactly when fn is 0, and its sum with recall is (tp + fn) / (tp + fn + 1e-9) |
| Validation.Validator.Map50 | validation.py:98-122 | the result is the area of the list ranked by descending confidence; it is 0 on an empty list, never negative, at most the final recall, below 1 when true entries do not outnumber ground-truth boxes, and under the invariant at most `Recall()` |
| LabelParsing.MatchSets | label_parsing.py:36-51 | specification of `matched_gt` and `matched_pred` after the first k ground-truth boxes; no contract of its own: MatchSetsRange, MatchSetsAgree and NonPositiveThresholdMatchesAll state its properties |
| LabelParsing.Counts | label_parsing.py:53-57 | specification of the returned (tp, fp, fn); no contract of its own: CountsProperties states its bounds and its agreement with `Validator.match` |
| LabelParsing.MatchSetsRange | label_parsing.py:36-51 | matched ground-truth indices are distinct loop indices below the number of boxes processed |
| LabelParsing.MatchSetsAgree | label_parsing.py:36-51 | with iou_thr > 0, the recorded prediction indices are exactly those the guarded matcher consumes, and the matched boxes number its TP count |
| LabelParsing.NonPositiveThresholdMatchesAll | label_parsing.py:37-50 | with iou_thr <= 0 every ground-truth box is counted as matched |
| LabelParsing.CountsProperties | label_parsing.py:32-57 | 0 <= tp <= len(gt_boxes) and tp + fn == len(gt_boxes); iou_thr <= 0 gives fn == 0; iou_thr > 0 gives the same (tp, fp, fn) as `Validator.match` and fp >= 0 |
| LabelParsing.MatchPredictions | label_parsing.py:32-57 | the nested loops return the counts of `Counts`, with the same bounds, the same threshold cases and the same agreement with `Validator.match` |
| LabelParsing.NonPositiveThresholdCounterexample | label_parsing.py:37-55 | one box, no predictions and iou_thr 0 give (tp, fp, fn) = (1, -1, 0), while the guarded matcher gives (0, 0, 1) |
| LabelParsing.MatchPredictionsGuarded | label_parsing.py:32-57 | with the `best_pi != -1` check added, the counts equal those of `Validator.match` for every threshold; all three are non-negative, tp + fn == len(gt_boxes) and tp + fp == len(preds) |

## Left out

- Directory walking, annotation folder naming, XML/JSON loading and the
  "No labels" message of `validate` are file I/O. `Validate` takes the frames
  as an in-memory sequence instead.
- `load_label` and `load_prediction` are not part of this model.
- `Validator.print`, `save_predictions_json`, main.py and object_detection.py
  are console output, serialisation, display and a call into the detector
  library.
- Floating point is not modelled. Ratios, epsilons and IoUs are exact
  `real`s, so IEEE rounding is not captured.
- Coordinates and counters are unbounded integers, as Python's are.
- In validation.py each ground-truth entry is a coordinate tuple indexed
  `[0]` to `[3]` (validation.py:28, 78-85). In label_parsing.py it is a
  dict whose `bbox` key holds the tuple (label_parsing.py:44). Predictions
  are dicts in both files. The model uses the datatype `Box` for every
  box: a label_parsing.py entry becomes the `Box` of its `bbox`. A
  prediction becomes a `Prediction`, and only its `bbox` and `confidence`
  are read.
- Validation.SortByConfidence: proved sorted and a permutation, but not
  stable. Python's `sorted` keeps entries of equal confidence in insertion
  order, and the mAP value of a tied list depends on that order; this
  insertion sort also keeps that order, but no lemma states it.
- Boxes.IoUSelf: the self-IoU is within 1e-6 of 1 rather than equal to 1,
  because of the epsilon in the denominator.
- LabelParsing.MatchPredictions: that the function leaves `gt_boxes` and
  `preds` unchanged is not stated. They are immutable sequence values in the
  model, so it holds by construction.
- The code has no confidence-threshold gating and no threshold sweep, so
  the model has neither.
- `validate` never resets the counters. They are zeroed only in `__init__`
  (validation.py:4-11), so repeated calls accumulate, and the model does
  the same.

## Findings

| source | as written | input that shows it | evidently intended | confidence | as-written member | corrected member |
|---|---|---|---|---|---|---|
| label_parsing.py:49-55 | `if best_iou >= iou_thr` accepts a ground-truth box without checking that a prediction was found, and adds `best_pi == -1` to `matched_pred` | `gt_boxes = [{"bbox": (0, 0, 10, 10)}]`, `preds = []`, `iou_thr = 0` gives `(tp, fp, fn) = (1, -1, 0)` | a box with no prediction is a false negative, as in `Validator.match` (validation.py:34), giving `(0, 0, 1)` | not executed | LabelParsing.NonPositiveThresholdCounterexample | LabelParsing.MatchPredictionsGuarded |

The default threshold is 0.5 (label_parsing.py:32, and the default of
`LabelParsing.MatchPredictions`), so the defect only shows with a
non-positive `iou_thr`. `LabelParsing.CountsProperties` proves that the
function as written is correct for every positive threshold.
