/**
 * The decision inside HillClimbingDecoder::train: decode, and when even the
 * loss-augmented prediction scores below the gold tree, decode again from
 * gold's segmentation and POS tags with sampling of both switched off; then
 * update the weights only when the prediction's loss-augmented score beats
 * gold's by more than UpdateFloor, passing that excess as the margin.
 * A full decode, the model score and the word losses are oracles.
 */
module Training {
  import opened Wrappers
  import opened Instance
  import opened Reset
  import opened Argmax

  /** The smallest margin worth an update. */
  const UpdateFloor: real := 0.0001

  /** The decoder's samplePos and sampleSeg switches. */
  datatype Switches = Switches(samplePos: bool, sampleSeg: bool)

  const NoSampling: Switches := Switches(false, false)
  const FullSampling: Switches := Switches(true, true)

  /** startTask, waitAndGetResult and the rebuilds after it, under the given switches. */
  type Decode = (DependencyInstance, Switches) -> DependencyInstance

  /** The prediction train ends with, whether it re-decoded from gold's choices, the margin of the update made (if any), and the switches afterwards. */
  datatype TrainStep = TrainStep(pred: DependencyInstance, regold: bool, margin: Option<real>, sampling: Switches)

  /** How far the loss-augmented score of the prediction exceeds gold's score. */
  function Excess(oldScore: real, err: real, newScore: real): real {
    oldScore + err - newScore
  }

  /**
   * The update test: it fires exactly when the excess is above UpdateFloor
   * (the first comparison is implied by the second), with the excess as
   * the margin.
   */
  function UpdateMargin(oldScore: real, err: real, newScore: real): (r: Option<real>)
    ensures r.Some? <==> Excess(oldScore, err, newScore) > UpdateFloor
    ensures r.Some? ==> r.value == Excess(oldScore, err, newScore) && r.value > 0.0
  {
    if newScore - oldScore < err then
      var margin := err - (newScore - oldScore);
      if margin > UpdateFloor then Some(margin) else None
    else None
  }

  /** The prediction falls short of gold even with its loss added: re-decode from gold's choices. */
  predicate FallsShort(oldScore: real, err: real, newScore: real) {
    oldScore + err < newScore - Eps
  }

  /**
   * One call of train. score is the model score of an instance, loss its
   * summed word loss against gold, newScore gold's model score. The
   * re-decode needs gold's choices to fit the prediction's candidates;
   * when they do not, the result is None.
   */
  function Train(gold: DependencyInstance, pred: DependencyInstance, decode: Decode,
                 score: DependencyInstance -> real, loss: DependencyInstance -> real,
                 newScore: real, flags: Switches): (r: Option<TrainStep>)
    ensures var p1 := decode(pred, flags);
      && (r.None? <==> FallsShort(score(p1), loss(p1), newScore) && !GoldFits(p1, gold))
      && (r.Some? ==> (r.value.regold <==> FallsShort(score(p1), loss(p1), newScore)))
      && (r.Some? && !r.value.regold ==> r.value.pred == p1 && r.value.sampling == flags)
      && (r.Some? && r.value.regold ==> r.value.sampling == FullSampling)
      && (r.Some? ==> (r.value.margin.Some? <==> Excess(score(r.value.pred), loss(r.value.pred), newScore) > UpdateFloor))
  {
    var p1 := decode(pred, flags);
    if score(p1) + loss(p1) < newScore - Eps then
      if !GoldFits(p1, gold) then None
      else
        var p2 := decode(SetGoldSegAndPos(p1, gold), NoSampling);
        Some(TrainStep(p2, true, UpdateMargin(score(p2), loss(p2), newScore), FullSampling))
    else
      Some(TrainStep(p1, false, UpdateMargin(score(p1), loss(p1), newScore), flags))
  }

  /**
   * The re-decode starts from gold's segmentation and POS choices on every
   * word after the root, with all those heads cleared, and runs with both
   * sampling switches off.
   */
  lemma RegoldInput(gold: DependencyInstance, pred: DependencyInstance, decode: Decode,
                    score: DependencyInstance -> real, loss: DependencyInstance -> real,
                    newScore: real, flags: Switches, r: TrainStep)
    requires Train(gold, pred, decode, score, loss, newScore, flags) == Some(r)
    requires r.regold
    ensures var p1 := decode(pred, flags);
      exists q :: && r.pred == decode(q, NoSampling)
                  && |q.word| == |p1.word|
                  && forall i :: 1 <= i < |p1.word| ==> GoldCopied(p1.word[i], gold.word[i], q.word[i])
  {
    var p1 := decode(pred, flags);
    var q := SetGoldSegAndPos(p1, gold);
    assert r.pred == decode(q, NoSampling);
  }
}
