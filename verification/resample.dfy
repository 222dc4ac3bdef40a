/**
 * The structural effect of the per-word samplers samplePos1O and sampleSeg1O.
 * The sampled indices come from score-based draws that are not modelled; they
 * are parameters here.
 */
module Resample {
  import opened Heads
  import opened Instance
  import opened Counters

  /** Whether each sampled POS index is candidate 0. */
  function ZeroFlags(choice: seq<int>): (r: seq<bool>)
    ensures |r| == |choice|
    ensures forall k :: 0 <= k < |r| ==> (r[k] <==> choice[k] == 0)
  {
    seq(|choice|, k requires 0 <= k < |choice| => choice[k] == 0)
  }

  /**
   * samplePos1O(inst, gold, fe, w, r) with choice[k] the index drawn for
   * unit k of word w: each unit takes its drawn POS index, the word's
   * counter is summed as the draws are made, and the word's heads are cleared.
   */
  function SamplePos1O(inst: DependencyInstance, w: int, choice: seq<int>): (r: DependencyInstance)
    requires 0 <= w < |inst.word| && HasCurrSeg(inst.word[w]) && |choice| == SegSize(inst.word[w])
    ensures |r.word| == |inst.word|
    ensures r.numSeg == inst.numSeg && r.seg2Word == inst.seg2Word && r.optSegCount == inst.optSegCount
    ensures forall i :: 0 <= i < |inst.word| && i != w ==> r.word[i] == inst.word[i]
    ensures HasCurrSeg(r.word[w]) && r.word[w].currSegCandID == inst.word[w].currSegCandID
    ensures r.word[w].inMap == inst.word[w].inMap && r.word[w].outMap == inst.word[w].outMap
    ensures |r.word[w].candSeg| == |inst.word[w].candSeg|
    ensures forall j :: 0 <= j < |inst.word[w].candSeg| && j != inst.word[w].currSegCandID ==>
      r.word[w].candSeg[j] == inst.word[w].candSeg[j]
    ensures SegSize(r.word[w]) == |choice|
    ensures forall k :: 0 <= k < |choice| ==>
      CurrSeg(r.word[w]).element[k] == CurrSeg(inst.word[w]).element[k].(currPos := choice[k], dep := Sentinel)
    ensures PosCountExact(r.word[w])
  {
    var v := inst.word[w];
    var s := CurrSeg(v);
    var s' := SegInstance(seq(|s.element|, k requires 0 <= k < |s.element| =>
      s.element[k].(currPos := choice[k], dep := Sentinel)));
    var v' := v.(candSeg := v.candSeg[v.currSegCandID := s'], optPosCount := CountTrue(ZeroFlags(choice)));
    assert PosFlags(v') == ZeroFlags(choice);
    PosFlagsCount(v');
    inst.(word := inst.word[w := v'])
  }

  /** Current units of v whose head lies in word w lose their head. */
  function DetachWord(v: WordInstance, w: int): WordInstance
    requires HasCurrSeg(v)
  {
    var s := CurrSeg(v);
    v.(candSeg := v.candSeg[v.currSegCandID := SegInstance(seq(|s.element|, k requires 0 <= k < |s.element| =>
      if s.element[k].dep.hWord == w then s.element[k].(dep := Sentinel) else s.element[k]))])
  }

  /**
   * sampleSeg1O(inst, gold, fe, w, r) with sample the drawn candidate: the
   * word switches segmentation through updateSeg, and every current unit of
   * another word whose head lies in word w loses its head.
   */
  function SampleSeg1O(inst: DependencyInstance, w: int, sample: int): (r: DependencyInstance)
    requires Shaped(inst) && 0 <= w < |inst.word| && 0 <= sample < |inst.word[w].candSeg|
    ensures Shaped(r) && |r.word| == |inst.word|
    ensures r.numSeg == inst.numSeg && r.seg2Word == inst.seg2Word
    ensures r.word[w] == inst.word[w].(currSegCandID := sample)
    ensures SegCountExact(inst) ==> SegCountExact(r)
    ensures forall i :: 0 <= i < |inst.word| && i != w ==> WordSkeleton(inst.word[i], r.word[i])
    ensures forall i :: 0 <= i < |inst.word| && i != w && PosCountExact(inst.word[i]) ==> PosCountExact(r.word[i])
    ensures forall x :: IsAddr(inst, x) && x.hWord != w ==>
      && IsAddr(r, x)
      && Dep(r, x) == (if Dep(inst, x).hWord == w then Sentinel else Dep(inst, x))
  {
    var u := UpdateSeg(inst, w, sample);
    var r := u.(word := seq(|u.word|, i requires 0 <= i < |u.word| =>
      if i == w then u.word[i] else DetachWord(u.word[i], w)));
    forall i | 0 <= i < |inst.word| && i != w
      ensures WordSkeleton(inst.word[i], r.word[i])
      ensures PosCountExact(inst.word[i]) ==> PosCountExact(r.word[i])
    {
      forall k | 0 <= k < SegSize(inst.word[i])
        ensures CurrSeg(r.word[i]).element[k].currPos == CurrSeg(inst.word[i]).element[k].currPos
      {
      }
      assert OptPosUnits(r.word[i]) == OptPosUnits(inst.word[i]);
    }
    assert OptSegWords(r) == OptSegWords(u);
    r
  }
}
