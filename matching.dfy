/** The greedy one-to-one matching of one frame, as pure functions: the
    specification that the imperative matchers are proved against. */
module Matching {
  import opened Boxes

  /** The running best of the inner scan: the largest IoU seen so far and the
      index of the prediction that reached it (-1 while there is none). */
  datatype Best = Best(iou: real, index: int)

  /** The inner scan over preds[..k] for one ground-truth box, skipping indices
      already consumed: it starts at IoU 0 and index -1 and replaces the best
      only on a strictly larger IoU. The ensures say that a chosen index is an
      unconsumed one of positive IoU and that no choice means IoU 0;
      ScanBestMaximal says the choice is the first of maximal IoU. */
  function ScanBest(gt: Box, preds: seq<Prediction>, consumed: set<int>, k: nat): (b: Best)
    requires k <= |preds|
    ensures b.iou >= 0.0
    ensures b.index == -1 ==> b.iou == 0.0
    ensures b.index != -1 ==>
      0 <= b.index < k && b.index !in consumed && b.iou > 0.0
    decreases k
  {
    if k == 0 then Best(0.0, -1)
    else
      var b := ScanBest(gt, preds, consumed, k - 1);
      if k - 1 in consumed then b
      else
        var v := IoU(gt, preds[k - 1].bbox);
        if v > b.iou then Best(v, k - 1) else b
  }

  /** The scan finds a maximum: the best IoU is that of the chosen
      prediction, no unconsumed prediction among preds[..k] has a larger
      IoU, and none before the chosen index has an equal one. */
  lemma {:induction false} ScanBestMaximal(gt: Box, preds: seq<Prediction>, consumed: set<int>, k: nat)
    requires k <= |preds|
    ensures var b := ScanBest(gt, preds, consumed, k);
      (b.index != -1 ==> b.iou == IoU(gt, preds[b.index].bbox)) &&
      (forall j :: 0 <= j < k && j !in consumed ==> IoU(gt, preds[j].bbox) <= b.iou) &&
      (b.index != -1 ==>
        forall j :: 0 <= j < b.index && j !in consumed ==> IoU(gt, preds[j].bbox) < b.iou)
    decreases k
  {
    if k > 0 {
      ScanBestMaximal(gt, preds, consumed, k - 1);
    }
  }

  /** The state of the outer loop after the first k ground-truth boxes: the
      consumed prediction indices, the counts, the accepted IoUs and the
      (confidence, true) entries of the true positives. */
  datatype Progress = Progress(
    consumed: set<int>, tp: nat, fn: nat, ious: seq<real>, hits: seq<(real, bool)>)

  /** Greedy matching of truth[..k]: each box takes its best unconsumed
      prediction when that IoU reaches thr and a prediction was found, and is
      a false negative otherwise. */
  function Greedy(truth: seq<Box>, preds: seq<Prediction>, thr: real, k: nat): (g: Progress)
    requires k <= |truth|
    ensures g.tp + g.fn == k
    decreases k
  {
    if k == 0 then Progress({}, 0, 0, [], [])
    else
      var g := Greedy(truth, preds, thr, k - 1);
      var b := ScanBest(truth[k - 1], preds, g.consumed, |preds|);
      if b.iou >= thr && b.index != -1 then
        Progress(g.consumed + {b.index}, g.tp + 1, g.fn, g.ious + [b.iou],
                 g.hits + [(preds[b.index].confidence, true)])
      else
        Progress(g.consumed, g.tp, g.fn + 1, g.ious, g.hits)
  }

  /** The outer loop consumes one prediction index per true positive, each
      in range. */
  lemma {:induction false} GreedyConsumed(truth: seq<Box>, preds: seq<Prediction>, thr: real, k: nat)
    requires k <= |truth|
    ensures var g := Greedy(truth, preds, thr, k);
      |g.consumed| == g.tp && forall i :: i in g.consumed ==> 0 <= i < |preds|
    decreases k
  {
    if k > 0 {
      GreedyConsumed(truth, preds, thr, k - 1);
      var g := Greedy(truth, preds, thr, k - 1);
      var b := ScanBest(truth[k - 1], preds, g.consumed, |preds|);
      if b.iou >= thr && b.index != -1 {
        AddFresh(g.consumed, b.index);
        assert Greedy(truth, preds, thr, k).consumed == g.consumed + {b.index};
      }
    }
  }

  /** One accepted IoU per true positive, each at least thr and positive. */
  lemma {:induction false} GreedyIous(truth: seq<Box>, preds: seq<Prediction>, thr: real, k: nat)
    requires k <= |truth|
    ensures var g := Greedy(truth, preds, thr, k);
      |g.ious| == g.tp && forall v :: v in g.ious ==> v >= thr && v > 0.0
    decreases k
  {
    if k > 0 {
      GreedyIous(truth, preds, thr, k - 1);
      var g := Greedy(truth, preds, thr, k - 1);
      var b := ScanBest(truth[k - 1], preds, g.consumed, |preds|);
      if b.iou >= thr && b.index != -1 {
        assert Greedy(truth, preds, thr, k).ious == g.ious + [b.iou];
      }
    }
  }

  /** One true confidence entry per true positive. */
  lemma {:induction false} GreedyHits(truth: seq<Box>, preds: seq<Prediction>, thr: real, k: nat)
    requires k <= |truth|
    ensures var g := Greedy(truth, preds, thr, k);
      |g.hits| == g.tp && forall h :: h in g.hits ==> h.1
    decreases k
  {
    if k > 0 {
      GreedyHits(truth, preds, thr, k - 1);
      var g := Greedy(truth, preds, thr, k - 1);
      var b := ScanBest(truth[k - 1], preds, g.consumed, |preds|);
      if b.iou >= thr && b.index != -1 {
        assert Greedy(truth, preds, thr, k).hits == g.hits + [(preds[b.index].confidence, true)];
      }
    }
  }

  lemma AddFresh(s: set<int>, x: int)
    requires x !in s
    ensures |s + {x}| == |s| + 1
  {
  }

  /** One step of Greedy, spelled out field by field. A solver aid for the
      loop proof of GreedyPass only: it is the definition unfolded once. */
  lemma GreedyStep(truth: seq<Box>, preds: seq<Prediction>, thr: real, k: nat)
    requires k < |truth|
    ensures var g := Greedy(truth, preds, thr, k);
      var b := ScanBest(truth[k], preds, g.consumed, |preds|);
      var h := Greedy(truth, preds, thr, k + 1);
      if b.iou >= thr && b.index != -1 then
        h.consumed == g.consumed + {b.index} && h.tp == g.tp + 1 && h.fn == g.fn &&
        h.ious == g.ious + [b.iou] && h.hits == g.hits + [(preds[b.index].confidence, true)]
      else
        h.consumed == g.consumed && h.tp == g.tp && h.fn == g.fn + 1 &&
        h.ious == g.ious && h.hits == g.hits
  {
  }

  /** The consumed indices below k. */
  function ConsumedBelow(consumed: set<int>, k: nat): set<int> {
    set i | 0 <= i < k && i in consumed
  }

  lemma ConsumedBelowStep(consumed: set<int>, k: nat)
    requires k > 0
    ensures k - 1 !in ConsumedBelow(consumed, k - 1)
    ensures ConsumedBelow(consumed, k) ==
      ConsumedBelow(consumed, k - 1) + (if k - 1 in consumed then {k - 1} else {})
  {
  }

  /** The (confidence, false) entries of the unconsumed predictions among
      preds[..k], in index order. */
  function Leftovers(preds: seq<Prediction>, consumed: set<int>, k: nat): (s: seq<(real, bool)>)
    requires k <= |preds|
    ensures |s| + |ConsumedBelow(consumed, k)| == k
    ensures forall e :: e in s ==> !e.1
    decreases k
  {
    if k == 0 then []
    else
      ConsumedBelowStep(consumed, k);
      Leftovers(preds, consumed, k - 1) +
        (if k - 1 in consumed then [] else [(preds[k - 1].confidence, false)])
  }

  /** What one call of the frame matcher adds to the accumulator. */
  datatype FrameResult = FrameResult(
    tp: nat, fp: nat, fn: nat, ious: seq<real>, confidenceMatches: seq<(real, bool)>)

  function MatchFrame(truth: seq<Box>, preds: seq<Prediction>, thr: real): FrameResult {
    var g := Greedy(truth, preds, thr, |truth|);
    var left := Leftovers(preds, g.consumed, |preds|);
    FrameResult(g.tp, |left|, g.fn, g.ious, g.hits + left)
  }

  /** The entry each of preds[..k] should contribute, in index order: its
      confidence, flagged true exactly when it was consumed. */
  function Entries(preds: seq<Prediction>, consumed: set<int>, k: nat): (s: seq<(real, bool)>)
    requires k <= |preds|
    ensures |s| == k
    decreases k
  {
    if k == 0 then []
    else Entries(preds, consumed, k - 1) + [(preds[k - 1].confidence, k - 1 in consumed)]
  }

  /** The (confidence, true) entries of the consumed predictions among
      preds[..k], in index order. */
  function TrueEntries(preds: seq<Prediction>, consumed: set<int>, k: nat): seq<(real, bool)>
    requires k <= |preds|
    decreases k
  {
    if k == 0 then []
    else
      TrueEntries(preds, consumed, k - 1) +
        (if k - 1 in consumed then [(preds[k - 1].confidence, true)] else [])
  }

  /** Nothing consumed, no true entries. */
  lemma {:induction false} TrueEntriesNone(preds: seq<Prediction>, k: nat)
    requires k <= |preds|
    ensures TrueEntries(preds, {}, k) == []
    decreases k
  {
    if k > 0 {
      TrueEntriesNone(preds, k - 1);
    }
  }

  /** Consuming an index at or above k leaves the entries of preds[..k] alone. */
  lemma {:induction false} TrueEntriesAbove(preds: seq<Prediction>, consumed: set<int>, x: int, k: nat)
    requires k <= |preds| && k <= x
    ensures TrueEntries(preds, consumed + {x}, k) == TrueEntries(preds, consumed, k)
    decreases k
  {
    if k > 0 {
      TrueEntriesAbove(preds, consumed, x, k - 1);
    }
  }

  /** Consuming one more index x below k adds exactly its (confidence, true)
      entry. */
  lemma {:induction false} TrueEntriesAdd(preds: seq<Prediction>, consumed: set<int>, x: int, k: nat)
    requires k <= |preds| && 0 <= x < k && x !in consumed
    ensures multiset(TrueEntries(preds, consumed + {x}, k)) ==
      multiset(TrueEntries(preds, consumed, k)) + multiset{(preds[x].confidence, true)}
    decreases k
  {
    if k - 1 == x {
      TrueEntriesAbove(preds, consumed, x, k - 1);
      TrueEntriesAddLast(preds, consumed, x, k);
    } else {
      TrueEntriesAdd(preds, consumed, x, k - 1);
      TrueEntriesAddBelow(preds, consumed, x, k);
    }
  }

  /** TrueEntriesAdd when x is the last index: its entry is appended. */
  lemma TrueEntriesAddLast(preds: seq<Prediction>, consumed: set<int>, x: int, k: nat)
    requires k <= |preds| && x == k - 1 && 0 <= x && x !in consumed
    requires TrueEntries(preds, consumed + {x}, k - 1) == TrueEntries(preds, consumed, k - 1)
    ensures multiset(TrueEntries(preds, consumed + {x}, k)) ==
      multiset(TrueEntries(preds, consumed, k)) + multiset{(preds[x].confidence, true)}
  {
    var rest := TrueEntries(preds, consumed, k - 1);
    assert TrueEntries(preds, consumed + {x}, k) == rest + [(preds[x].confidence, true)];
    assert TrueEntries(preds, consumed, k) == rest;
  }

  /** TrueEntriesAdd when x lies below the last index: both sides get the
      same tail. */
  lemma TrueEntriesAddBelow(preds: seq<Prediction>, consumed: set<int>, x: int, k: nat)
    requires k <= |preds| && 0 <= x < k - 1 && x !in consumed
    requires multiset(TrueEntries(preds, consumed + {x}, k - 1)) ==
      multiset(TrueEntries(preds, consumed, k - 1)) + multiset{(preds[x].confidence, true)}
    ensures multiset(TrueEntries(preds, consumed + {x}, k)) ==
      multiset(TrueEntries(preds, consumed, k)) + multiset{(preds[x].confidence, true)}
  {
    var rest := TrueEntries(preds, consumed, k - 1);
    var rest' := TrueEntries(preds, consumed + {x}, k - 1);
    var tail := if k - 1 in consumed then [(preds[k - 1].confidence, true)] else [];
    assert TrueEntries(preds, consumed + {x}, k) == rest' + tail;
    assert TrueEntries(preds, consumed, k) == rest + tail;
    BagAppend(rest', tail, multiset(rest), (preds[x].confidence, true));
  }

  /** Appending the same tail to two sequences whose bags differ by e. */
  lemma BagAppend(a: seq<(real, bool)>, tail: seq<(real, bool)>, m: multiset<(real, bool)>,
                  e: (real, bool))
    requires multiset(a) == m + multiset{e}
    ensures multiset(a + tail) == m + multiset(tail) + multiset{e}
  {
  }

  /** The entries of preds[..k] split into the consumed ones and the leftovers. */
  lemma {:induction false} EntriesSplit(preds: seq<Prediction>, consumed: set<int>, k: nat)
    requires k <= |preds|
    ensures multiset(Entries(preds, consumed, k)) ==
      multiset(TrueEntries(preds, consumed, k)) + multiset(Leftovers(preds, consumed, k))
    decreases k
  {
    if k > 0 {
      EntriesSplit(preds, consumed, k - 1);
      EntriesSplitStep(preds, consumed, k);
    }
  }

  /** One step of EntriesSplit: the entry of index k - 1 goes to exactly one side. */
  lemma EntriesSplitStep(preds: seq<Prediction>, consumed: set<int>, k: nat)
    requires 0 < k <= |preds|
    requires multiset(Entries(preds, consumed, k - 1)) ==
      multiset(TrueEntries(preds, consumed, k - 1)) + multiset(Leftovers(preds, consumed, k - 1))
    ensures multiset(Entries(preds, consumed, k)) ==
      multiset(TrueEntries(preds, consumed, k)) + multiset(Leftovers(preds, consumed, k))
  {
    var all := Entries(preds, consumed, k - 1);
    var hit := TrueEntries(preds, consumed, k - 1);
    var left := Leftovers(preds, consumed, k - 1);
    var e := (preds[k - 1].confidence, k - 1 in consumed);
    assert Entries(preds, consumed, k) == all + [e];
    if k - 1 in consumed {
      assert TrueEntries(preds, consumed, k) == hit + [e];
      assert Leftovers(preds, consumed, k) == left;
    } else {
      assert TrueEntries(preds, consumed, k) == hit;
      assert Leftovers(preds, consumed, k) == left + [e];
    }
  }

  /** The hits appended by the outer loop carry exactly the confidences of the
      consumed predictions, each once. */
  lemma {:induction false} GreedyHitsContent(truth: seq<Box>, preds: seq<Prediction>, thr: real, k: nat)
    requires k <= |truth|
    ensures var g := Greedy(truth, preds, thr, k);
      multiset(g.hits) == multiset(TrueEntries(preds, g.consumed, |preds|))
    decreases k
  {
    if k > 0 {
      GreedyHitsContent(truth, preds, thr, k - 1);
      GreedyHitsStep(truth, preds, thr, k);
    } else {
      assert Greedy(truth, preds, thr, 0) == Progress({}, 0, 0, [], []);
      TrueEntriesNone(preds, |preds|);
    }
  }

  /** One step of GreedyHitsContent: a match appends the hit of the index it
      consumes. */
  lemma GreedyHitsStep(truth: seq<Box>, preds: seq<Prediction>, thr: real, k: nat)
    requires 0 < k <= |truth|
    requires var g := Greedy(truth, preds, thr, k - 1);
      multiset(g.hits) == multiset(TrueEntries(preds, g.consumed, |preds|))
    ensures var g := Greedy(truth, preds, thr, k);
      multiset(g.hits) == multiset(TrueEntries(preds, g.consumed, |preds|))
  {
    var g := Greedy(truth, preds, thr, k - 1);
    var b := ScanBest(truth[k - 1], preds, g.consumed, |preds|);
    var g' := Greedy(truth, preds, thr, k);
    if b.iou >= thr && b.index != -1 {
      var e := (preds[b.index].confidence, true);
      assert g'.consumed == g.consumed + {b.index} && g'.hits == g.hits + [e];
      TrueEntriesAdd(preds, g.consumed, b.index, |preds|);
    } else {
      assert g'.consumed == g.consumed && g'.hits == g.hits;
    }
  }

  /** The confidence matches of one frame are, as a multiset, one entry per
      prediction carrying that prediction's confidence, flagged true exactly
      when the prediction was matched. */
  lemma MatchFrameEntries(truth: seq<Box>, preds: seq<Prediction>, thr: real)
    ensures var g := Greedy(truth, preds, thr, |truth|);
      multiset(MatchFrame(truth, preds, thr).confidenceMatches) ==
        multiset(Entries(preds, g.consumed, |preds|))
  {
    var g := Greedy(truth, preds, thr, |truth|);
    var left := Leftovers(preds, g.consumed, |preds|);
    assert MatchFrame(truth, preds, thr).confidenceMatches == g.hits + left;
    GreedyHitsContent(truth, preds, thr, |truth|);
    EntriesSplit(preds, g.consumed, |preds|);
  }

  /** Number of true entries of a confidence-match list. */
  function CountTrue(s: seq<(real, bool)>): (n: nat)
    ensures n <= |s|
  {
    if s == [] then 0 else (if s[0].1 then 1 else 0) + CountTrue(s[1..])
  }

  lemma {:induction false} CountTrueConcat(a: seq<(real, bool)>, b: seq<(real, bool)>)
    ensures CountTrue(a + b) == CountTrue(a) + CountTrue(b)
  {
    if a != [] {
      assert (a + b)[0] == a[0] && (a + b)[1..] == a[1..] + b;
      CountTrueConcat(a[1..], b);
    } else {
      assert a + b == b;
    }
  }

  /** A list whose entries are true exactly on its first t positions has t
      true entries. */
  lemma {:induction false} CountTrueOfPrefix(s: seq<(real, bool)>, t: nat)
    requires t <= |s|
    requires forall i :: 0 <= i < |s| ==> (s[i].1 <==> i < t)
    ensures CountTrue(s) == t
  {
    if s != [] {
      assert forall i :: 0 <= i < |s[1..]| ==> s[1..][i] == s[i + 1];
      CountTrueOfPrefix(s[1..], if t == 0 then 0 else t - 1);
    }
  }

  lemma ConsumedBelowAll(consumed: set<int>, n: nat)
    requires forall i :: i in consumed ==> 0 <= i < n
    ensures ConsumedBelow(consumed, n) == consumed
  {
  }

  /** Every ground-truth box gives exactly one true positive or false
      negative, and every prediction is either consumed by exactly one true
      positive or counted as a false positive; one accepted IoU is recorded
      per true positive, each at least the threshold and positive. */
  lemma MatchFrameCounts(truth: seq<Box>, preds: seq<Prediction>, thr: real)
    ensures var r := MatchFrame(truth, preds, thr);
      r.tp + r.fn == |truth| && r.tp + r.fp == |preds| &&
      |r.ious| == r.tp && forall v :: v in r.ious ==> v >= thr && v > 0.0
  {
    var g := Greedy(truth, preds, thr, |truth|);
    GreedyConsumed(truth, preds, thr, |truth|);
    GreedyIous(truth, preds, thr, |truth|);
    GreedyHits(truth, preds, thr, |truth|);
    ConsumedBelowAll(g.consumed, |preds|);
  }

  /** One confidence-match entry per prediction: the first tp are the true
      positives (marked true), the rest the false positives (marked false). */
  lemma MatchFrameConfidenceMatches(truth: seq<Box>, preds: seq<Prediction>, thr: real)
    ensures var r := MatchFrame(truth, preds, thr);
      |r.confidenceMatches| == |preds| &&
      (forall i :: 0 <= i < |r.confidenceMatches| ==> (r.confidenceMatches[i].1 <==> i < r.tp)) &&
      CountTrue(r.confidenceMatches) == r.tp &&
      |r.confidenceMatches| - CountTrue(r.confidenceMatches) == r.fp
  {
    var r := MatchFrame(truth, preds, thr);
    var g := Greedy(truth, preds, thr, |truth|);
    var left := Leftovers(preds, g.consumed, |preds|);
    GreedyConsumed(truth, preds, thr, |truth|);
    GreedyIous(truth, preds, thr, |truth|);
    GreedyHits(truth, preds, thr, |truth|);
    MatchFrameCounts(truth, preds, thr);
    assert r.confidenceMatches == g.hits + left;
    forall i | 0 <= i < |r.confidenceMatches|
      ensures r.confidenceMatches[i].1 <==> i < r.tp
    {
      if i < r.tp {
        assert r.confidenceMatches[i] == g.hits[i];
        assert g.hits[i] in g.hits;
      } else {
        assert r.confidenceMatches[i] == left[i - r.tp];
        assert left[i - r.tp] in left;
      }
    }
    CountTrueOfPrefix(r.confidenceMatches, r.tp);
  }
}
