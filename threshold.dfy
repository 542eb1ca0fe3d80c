/** The threshold decision at the end of `predict_damage`: the per-class score
    vector and the label catalog (index-aligned) become the list of
    `{class_name, probability}` entries handed to the web layer. */
module Threshold {
  import opened Wrappers

  /** `PREDICTION_THRESHOLD`: a label is reported when its score reaches it. */
  const PredictionThreshold: real := 0.2

  /** How the threshold is rendered inside the "no label" message; it is
      written out by hand and must change together with `PredictionThreshold`. */
  const ThresholdText: string := "0.2"

  /** "No label exceeds the prediction threshold (0.2)." */
  const NoLabelMessage: string := "예측 임계값 (" + ThresholdText + ")을 넘는 라벨이 없습니다."

  /** One entry of `damage_info`. The probability is kept as a number
      (`Some`); the "no label" entry leaves it empty (`None`). */
  datatype DamageEntry = DamageEntry(className: string, probability: Option<real>)

  /** The single entry reported when no score reaches the threshold. */
  const Sentinel: DamageEntry := DamageEntry(NoLabelMessage, None)

  /** The boolean mask `predictions >= PREDICTION_THRESHOLD`. */
  function IsPredicted(scores: seq<real>): (mask: seq<bool>)
    ensures |mask| == |scores|
    ensures forall i :: 0 <= i < |scores| ==> (mask[i] <==> scores[i] >= PredictionThreshold)
  {
    seq(|scores|, i requires 0 <= i < |scores| => scores[i] >= PredictionThreshold)
  }

  /** NumPy boolean indexing `xs[mask]`: the elements whose mask bit is set,
      in their original order. NumPy refuses a mask of another length. */
  function Masked<T>(xs: seq<T>, mask: seq<bool>): (r: seq<T>)
    requires |xs| == |mask|
    ensures |r| <= |xs|
  {
    if |xs| == 0 then []
    else Masked(xs[..|xs| - 1], mask[..|mask| - 1]) + (if mask[|mask| - 1] then [xs[|xs| - 1]] else [])
  }

  /** The positions where `mask` is set, in increasing order. */
  function TrueIndices(mask: seq<bool>): (r: seq<nat>)
    ensures |r| <= |mask|
    ensures forall k :: 0 <= k < |r| ==> r[k] < |mask|
  {
    if |mask| == 0 then []
    else TrueIndices(mask[..|mask| - 1]) + (if mask[|mask| - 1] then [|mask| - 1] else [])
  }

  /** The catalog indices whose score reaches the threshold, in catalog order. */
  function QualifyingIndices(scores: seq<real>): (r: seq<nat>)
    ensures forall k :: 0 <= k < |r| ==> r[k] < |scores|
  {
    TrueIndices(IsPredicted(scores))
  }

  /** Reference definition of the reported detections: one entry per
      qualifying index, in catalog order, whose label and score come from
      that same index. */
  function Detections(labels: seq<string>, scores: seq<real>): seq<DamageEntry>
    requires |labels| == |scores|
  {
    var q := QualifyingIndices(scores);
    seq(|q|, k requires 0 <= k < |q| => DamageEntry(labels[q[k]], Some(scores[q[k]])))
  }

  /** Reference definition of `damage_info`: the detections, or the single
      sentinel entry when there are none. */
  function DamageInfo(labels: seq<string>, scores: seq<real>): seq<DamageEntry>
    requires |labels| == |scores|
  {
    var d := Detections(labels, scores);
    if |d| == 0 then [Sentinel] else d
  }

  /** `predict_damage`'s mask, select and zip loop: mask, select labels and
      probabilities with the same mask, then either append the sentinel or
      append the zipped pairs one by one. */
  method DecideDamage(labels: seq<string>, scores: seq<real>) returns (damageInfo: seq<DamageEntry>)
    requires |labels| == |scores|
    ensures damageInfo == DamageInfo(labels, scores)
  {
    var isPredicted := IsPredicted(scores);
    var predictedLabels := Masked(labels, isPredicted);
    var predictedProbabilities := Masked(scores, isPredicted);
    MaskedAt(labels, isPredicted);
    MaskedAt(scores, isPredicted);
    ghost var detections := Detections(labels, scores);

    damageInfo := [];
    if |predictedLabels| == 0 {
      damageInfo := damageInfo + [Sentinel];
    } else {
      // `zip` stops at the end of the shorter sequence
      var k := 0;
      while k < |predictedLabels| && k < |predictedProbabilities|
        invariant 0 <= k <= |predictedLabels|
        invariant damageInfo == detections[..k]
      {
        damageInfo := damageInfo + [DamageEntry(predictedLabels[k], Some(predictedProbabilities[k]))];
        k := k + 1;
      }
      assert damageInfo == detections;
    }
  }

  // ---------------------------------------------------------------------
  // Masks and their index lists

  /** Applying a mask selects exactly the elements at the mask's set
      positions, in order; so two arrays masked alike stay index-aligned. */
  lemma {:induction false} MaskedAt<T>(xs: seq<T>, mask: seq<bool>)
    requires |xs| == |mask|
    ensures |Masked(xs, mask)| == |TrueIndices(mask)|
    ensures forall k :: 0 <= k < |Masked(xs, mask)| ==> Masked(xs, mask)[k] == xs[TrueIndices(mask)[k]]
  {
    if |xs| > 0 {
      MaskedAt(xs[..|xs| - 1], mask[..|mask| - 1]);
    }
  }

  /** A position is listed exactly when its mask bit is set. */
  lemma {:induction false} TrueIndicesMembership(mask: seq<bool>, i: int)
    ensures i in TrueIndices(mask) <==> 0 <= i < |mask| && mask[i]
  {
    if |mask| > 0 {
      var init := mask[..|mask| - 1];
      TrueIndicesMembership(init, i);
      if i < |mask| - 1 {
        assert 0 <= i ==> init[i] == mask[i];
      }
    }
  }

  /** The listed positions are strictly increasing. */
  lemma {:induction false} TrueIndicesIncreasing(mask: seq<bool>)
    ensures forall j, k :: 0 <= j < k < |TrueIndices(mask)| ==> TrueIndices(mask)[j] < TrueIndices(mask)[k]
  {
    if |mask| > 0 {
      TrueIndicesIncreasing(mask[..|mask| - 1]);
    }
  }

  /** The number of listed positions is the number of set bits. */
  lemma {:induction false} TrueIndicesCount(mask: seq<bool>)
    ensures |TrueIndices(mask)| == |set i | 0 <= i < |mask| && mask[i]|
  {
    if |mask| > 0 {
      var n := |mask| - 1;
      var init := mask[..n];
      TrueIndicesCount(init);
      var before := set i | 0 <= i < n && init[i];
      var after := set i | 0 <= i < |mask| && mask[i];
      assert before == set i | 0 <= i < n && mask[i];
      if mask[n] {
        assert after == before + {n};
        assert n !in before;
      } else {
        assert after == before;
      }
    }
  }

  // ---------------------------------------------------------------------
  // Properties of the decision

  /** A catalog index qualifies exactly when its score reaches the threshold
      (inclusively), and qualifying indices are listed in catalog order. */
  lemma QualifyingIndicesCharacterized(scores: seq<real>)
    ensures forall i :: i in QualifyingIndices(scores) <==> 0 <= i < |scores| && scores[i] >= PredictionThreshold
    ensures forall j, k :: 0 <= j < k < |QualifyingIndices(scores)| ==> QualifyingIndices(scores)[j] < QualifyingIndices(scores)[k]
  {
    forall i ensures i in QualifyingIndices(scores) <==> 0 <= i < |scores| && scores[i] >= PredictionThreshold {
      TrueIndicesMembership(IsPredicted(scores), i);
    }
    TrueIndicesIncreasing(IsPredicted(scores));
  }

  /** No reported entry is below the threshold, and every reported entry
      pairs a catalog label with that same index's score. */
  lemma DetectionsSound(labels: seq<string>, scores: seq<real>)
    requires |labels| == |scores|
    ensures forall e :: e in Detections(labels, scores) ==>
      e.probability.Some? && e.probability.value >= PredictionThreshold &&
      exists i :: 0 <= i < |scores| && e == DamageEntry(labels[i], Some(scores[i]))
  {
    var q := QualifyingIndices(scores);
    var d := Detections(labels, scores);
    QualifyingIndicesCharacterized(scores);
    forall e | e in d
      ensures e.probability.Some? && e.probability.value >= PredictionThreshold
      ensures exists i :: 0 <= i < |scores| && e == DamageEntry(labels[i], Some(scores[i]))
    {
      var k :| 0 <= k < |d| && d[k] == e;
      assert q[k] in q;
    }
  }

  /** Every index whose score reaches the threshold is reported, with its own
      label and score, and the number of detections is the number of such
      indices. */
  lemma DetectionsComplete(labels: seq<string>, scores: seq<real>)
    requires |labels| == |scores|
    ensures forall i :: 0 <= i < |scores| && scores[i] >= PredictionThreshold ==>
      DamageEntry(labels[i], Some(scores[i])) in Detections(labels, scores)
    ensures |Detections(labels, scores)| == |set i | 0 <= i < |scores| && scores[i] >= PredictionThreshold|
  {
    var q := QualifyingIndices(scores);
    var d := Detections(labels, scores);
    QualifyingIndicesCharacterized(scores);
    forall i | 0 <= i < |scores| && scores[i] >= PredictionThreshold
      ensures DamageEntry(labels[i], Some(scores[i])) in d
    {
      assert i in q;
      var k :| 0 <= k < |q| && q[k] == i;
      assert d[k] == DamageEntry(labels[i], Some(scores[i]));
    }
    var mask := IsPredicted(scores);
    TrueIndicesCount(mask);
    assert (set i | 0 <= i < |mask| && mask[i]) == set i | 0 <= i < |scores| && scores[i] >= PredictionThreshold;
  }

  /** Entry `first` is built from a smaller catalog index than entry `second`. */
  ghost predicate FromEarlierIndex(labels: seq<string>, scores: seq<real>, first: DamageEntry, second: DamageEntry)
    requires |labels| == |scores|
  {
    exists i1, i2 :: 0 <= i1 < i2 < |scores| &&
      first == DamageEntry(labels[i1], Some(scores[i1])) &&
      second == DamageEntry(labels[i2], Some(scores[i2]))
  }

  /** Entries appear in increasing catalog index order, not ranked by
      score: of any two entries, the earlier one comes from a smaller
      catalog index than the later one. */
  lemma DetectionsInCatalogOrder(labels: seq<string>, scores: seq<real>)
    requires |labels| == |scores|
    ensures forall j, k :: 0 <= j < k < |Detections(labels, scores)| ==>
      FromEarlierIndex(labels, scores, Detections(labels, scores)[j], Detections(labels, scores)[k])
  {
    var q := QualifyingIndices(scores);
    var d := Detections(labels, scores);
    QualifyingIndicesCharacterized(scores);
    forall j, k | 0 <= j < k < |d|
      ensures FromEarlierIndex(labels, scores, d[j], d[k])
    {
      var i1, i2 := q[j], q[k];
      assert 0 <= i1 < i2 < |scores| &&
        d[j] == DamageEntry(labels[i1], Some(scores[i1])) &&
        d[k] == DamageEntry(labels[i2], Some(scores[i2]));
    }
  }

  /** The boundary is inclusive: a score equal to the threshold is reported. */
  lemma BoundaryInclusive(labels: seq<string>, scores: seq<real>, i: nat)
    requires |labels| == |scores| && i < |scores|
    requires scores[i] == PredictionThreshold
    ensures DamageEntry(labels[i], Some(PredictionThreshold)) in DamageInfo(labels, scores)
  {
    DetectionsComplete(labels, scores);
  }

  /** `damage_info` is never empty; it is the lone sentinel exactly when no
      score reaches the threshold, and otherwise holds no sentinel. */
  lemma SentinelExactlyWhenNothingQualifies(labels: seq<string>, scores: seq<real>)
    requires |labels| == |scores|
    ensures |DamageInfo(labels, scores)| >= 1
    ensures DamageInfo(labels, scores) == [Sentinel] <==> forall i :: 0 <= i < |scores| ==> scores[i] < PredictionThreshold
    ensures (exists i :: 0 <= i < |scores| && scores[i] >= PredictionThreshold) ==> Sentinel !in DamageInfo(labels, scores)
  {
    var d := Detections(labels, scores);
    DetectionsSound(labels, scores);
    DetectionsComplete(labels, scores);
    if !forall i :: 0 <= i < |scores| ==> scores[i] < PredictionThreshold {
      var i :| 0 <= i < |scores| && scores[i] >= PredictionThreshold;
      assert DamageEntry(labels[i], Some(scores[i])) in d;
    }
  }

  /** Scores [0.1, 0.9, 0.3] over catalog [A, B, C] report B then C. */
  lemma ExampleTwoOfThree()
    ensures DamageInfo(["A", "B", "C"], [0.1, 0.9, 0.3])
         == [DamageEntry("B", Some(0.9)), DamageEntry("C", Some(0.3))]
  {
    var scores: seq<real> := [0.1, 0.9, 0.3];
    var mask := IsPredicted(scores);
    assert mask == [false, true, true];
    assert mask[..2][..1] == [false];
    assert TrueIndices(mask[..2][..1]) == [];
    assert mask[..2] == [false, true];
    assert TrueIndices(mask[..2]) == [1];
    assert TrueIndices(mask) == [1, 2];
  }

  /** No ranking step: scores [0.3, 0.9] over catalog [A, B] keep catalog
      order, so the lower score comes first. */
  lemma ExampleNotRanked()
    ensures DamageInfo(["A", "B"], [0.3, 0.9])
         == [DamageEntry("A", Some(0.3)), DamageEntry("B", Some(0.9))]
  {
  }

  /** Scores all below the threshold report the sentinel alone. */
  lemma ExampleNothingQualifies()
    ensures DamageInfo(["A", "B"], [0.1, 0.19]) == [Sentinel]
  {
  }
}
