/**
 * The two "how many choices are candidate 0" counters: optSegCount on the
 * sentence and optPosCount on each word, their from-scratch computation and
 * their incremental maintenance.
 */
module Counters {
  import opened Heads
  import opened Instance

  /** Number of true flags, accumulated from the back. */
  function CountTrue(bs: seq<bool>): nat
  {
    if |bs| == 0 then 0 else CountTrue(bs[..|bs| - 1]) + (if bs[|bs| - 1] then 1 else 0)
  }

  /** The flagged positions. */
  function TrueAt(bs: seq<bool>): set<int> {
    set i | 0 <= i < |bs| && bs[i]
  }

  lemma {:induction false} CountTrueIsCard(bs: seq<bool>)
    ensures CountTrue(bs) == |TrueAt(bs)|
  {
    if |bs| > 0 {
      var n := |bs| - 1;
      CountTrueIsCard(bs[..n]);
      if bs[n] {
        assert TrueAt(bs) == TrueAt(bs[..n]) + {n};
      } else {
        assert TrueAt(bs) == TrueAt(bs[..n]);
      }
    }
  }

  /** Whether each word currently uses its candidate-0 segmentation. */
  function SegFlags(inst: DependencyInstance): seq<bool> {
    seq(|inst.word|, i requires 0 <= i < |inst.word| => inst.word[i].currSegCandID == 0)
  }

  /** Whether each current unit of w uses its candidate-0 POS tag. */
  function PosFlags(w: WordInstance): seq<bool>
    requires HasCurrSeg(w)
  {
    seq(SegSize(w), k requires 0 <= k < SegSize(w) => CurrSeg(w).element[k].currPos == 0)
  }

  /** The words whose current segmentation is candidate 0. */
  function OptSegWords(inst: DependencyInstance): set<int> {
    set i | 0 <= i < |inst.word| && inst.word[i].currSegCandID == 0
  }

  /** The current units of w whose POS tag is candidate 0. */
  function OptPosUnits(w: WordInstance): set<int>
    requires HasCurrSeg(w)
  {
    set k | 0 <= k < SegSize(w) && CurrSeg(w).element[k].currPos == 0
  }

  predicate SegCountExact(inst: DependencyInstance) {
    inst.optSegCount == |OptSegWords(inst)|
  }

  predicate PosCountExact(w: WordInstance) {
    HasCurrSeg(w) && w.optPosCount == |OptPosUnits(w)|
  }

  /** Both counters agree with the choices they summarise. */
  predicate CountsExact(inst: DependencyInstance) {
    SegCountExact(inst) && forall i :: 0 <= i < |inst.word| ==> PosCountExact(inst.word[i])
  }

  lemma SegFlagsCount(inst: DependencyInstance)
    ensures CountTrue(SegFlags(inst)) == |OptSegWords(inst)|
  {
    CountTrueIsCard(SegFlags(inst));
    assert TrueAt(SegFlags(inst)) == OptSegWords(inst);
  }

  lemma PosFlagsCount(w: WordInstance)
    requires HasCurrSeg(w)
    ensures CountTrue(PosFlags(w)) == |OptPosUnits(w)|
  {
    CountTrueIsCard(PosFlags(w));
    assert TrueAt(PosFlags(w)) == OptPosUnits(w);
  }

  function RecountWord(w: WordInstance): (r: WordInstance)
    requires HasCurrSeg(w)
    ensures r == w.(optPosCount := r.optPosCount)
    ensures PosCountExact(r)
  {
    PosFlagsCount(w);
    var r := w.(optPosCount := CountTrue(PosFlags(w)));
    assert CurrSeg(r) == CurrSeg(w);
    assert OptPosUnits(r) == OptPosUnits(w);
    r
  }

  /** setOptSegPosCount(): recomputes both counters from the current choices and touches nothing else. */
  function SetOptSegPosCount(inst: DependencyInstance): (r: DependencyInstance)
    requires Shaped(inst)
    ensures CountsExact(r)
    ensures |r.word| == |inst.word|
    ensures r == inst.(optSegCount := r.optSegCount, word := r.word)
    ensures forall i :: 0 <= i < |r.word| ==> r.word[i] == inst.word[i].(optPosCount := r.word[i].optPosCount)
  {
    SegFlagsCount(inst);
    var r := inst.(optSegCount := CountTrue(SegFlags(inst)),
                   word := seq(|inst.word|, i requires 0 <= i < |inst.word| => RecountWord(inst.word[i])));
    assert OptSegWords(r) == OptSegWords(inst);
    r
  }

  /** The counters only look at the skeleton: heads and child lists do not affect them. */
  lemma SkeletonKeepsCounts(a: DependencyInstance, b: DependencyInstance)
    requires SameSkeleton(a, b) && CountsExact(a)
    ensures CountsExact(b)
  {
    forall i | 0 <= i < |b.word|
      ensures PosCountExact(b.word[i])
    {
      assert WordSkeleton(a.word[i], b.word[i]);
      assert PosCountExact(a.word[i]);
      assert OptPosUnits(b.word[i]) == OptPosUnits(a.word[i]) by {
        forall k | 0 <= k < SegSize(a.word[i])
          ensures CurrSeg(b.word[i]).element[k].currPos == CurrSeg(a.word[i]).element[k].currPos
        {
          assert Bare(CurrSeg(b.word[i]).element[k]) == Bare(CurrSeg(a.word[i]).element[k]);
        }
      }
    }
    assert OptSegWords(b) == OptSegWords(a);
  }

  /** Recounting an instance whose counters are already exact changes nothing. */
  lemma SetOptSegPosCountOfExact(inst: DependencyInstance)
    requires Shaped(inst) && CountsExact(inst)
    ensures SetOptSegPosCount(inst) == inst
  {
    var r := SetOptSegPosCount(inst);
    forall i | 0 <= i < |inst.word|
      ensures r.word[i] == inst.word[i]
    {
      assert PosCountExact(inst.word[i]) && PosCountExact(r.word[i]);
      assert CurrSeg(r.word[i]) == CurrSeg(inst.word[i]);
      assert OptPosUnits(r.word[i]) == OptPosUnits(inst.word[i]);
    }
    assert r.word == inst.word;
    assert OptSegWords(r) == OptSegWords(inst);
  }

  /** updateSeg(inst, word, newSeg): switches word w to candidate newSeg and adjusts optSegCount by difference. */
  function UpdateSeg(inst: DependencyInstance, w: int, newSeg: int): (r: DependencyInstance)
    requires 0 <= w < |inst.word|
    ensures |r.word| == |inst.word| && r.numSeg == inst.numSeg && r.seg2Word == inst.seg2Word
    ensures r.word[w] == inst.word[w].(currSegCandID := newSeg)
    ensures forall i :: 0 <= i < |inst.word| && i != w ==> r.word[i] == inst.word[i]
    ensures SegCountExact(inst) ==> SegCountExact(r)
  {
    var before := if inst.word[w].currSegCandID == 0 then 1 else 0;
    var after := if newSeg == 0 then 1 else 0;
    var r := inst.(optSegCount := inst.optSegCount - before + after,
                   word := inst.word[w := inst.word[w].(currSegCandID := newSeg)]);
    OptSegWordsAfterSwitch(inst, w, newSeg, r);
    r
  }

  lemma OptSegWordsAfterSwitch(inst: DependencyInstance, w: int, newSeg: int, r: DependencyInstance)
    requires 0 <= w < |inst.word|
    requires r.word == inst.word[w := inst.word[w].(currSegCandID := newSeg)]
    ensures |OptSegWords(r)| == |OptSegWords(inst)| - (if inst.word[w].currSegCandID == 0 then 1 else 0)
                                 + (if newSeg == 0 then 1 else 0)
  {
    var rest := OptSegWords(inst) - {w};
    assert forall i :: 0 <= i < |inst.word| && i != w ==> r.word[i] == inst.word[i];
    assert OptSegWords(r) - {w} == rest;
    if inst.word[w].currSegCandID == 0 {
      assert OptSegWords(inst) == rest + {w};
    } else {
      assert OptSegWords(inst) == rest;
    }
    if newSeg == 0 {
      assert OptSegWords(r) == rest + {w};
    } else {
      assert OptSegWords(r) == rest;
    }
  }

  /** updatePos(word, ele, newPos): re-tags unit h and adjusts its word's optPosCount by difference. */
  function UpdatePos(inst: DependencyInstance, h: HeadIndex, newPos: int): (r: DependencyInstance)
    requires IsAddr(inst, h)
    ensures |r.word| == |inst.word| && r.numSeg == inst.numSeg && r.seg2Word == inst.seg2Word
    ensures r.optSegCount == inst.optSegCount
    ensures forall i :: 0 <= i < |inst.word| && i != h.hWord ==> r.word[i] == inst.word[i]
    ensures forall x :: IsAddr(r, x) <==> IsAddr(inst, x)
    ensures GetElement(r, h) == GetElement(inst, h).(currPos := newPos)
    ensures forall x :: IsAddr(inst, x) && x != h ==> GetElement(r, x) == GetElement(inst, x)
    ensures PosCountExact(inst.word[h.hWord]) ==> PosCountExact(r.word[h.hWord])
  {
    var w := inst.word[h.hWord];
    var e := GetElement(inst, h);
    var count := w.optPosCount - (if e.currPos == 0 then 1 else 0) + (if newPos == 0 then 1 else 0);
    var mid := SetElement(inst, h, e.(currPos := newPos));
    var r := mid.(word := mid.word[h.hWord := mid.word[h.hWord].(optPosCount := count)]);
    OptPosUnitsAfterRetag(w, r.word[h.hWord], h.hSeg, newPos);
    r
  }

  lemma OptPosUnitsAfterRetag(w: WordInstance, v: WordInstance, k: int, newPos: int)
    requires HasCurrSeg(w) && HasCurrSeg(v) && 0 <= k < SegSize(w)
    requires CurrSeg(v).element == CurrSeg(w).element[k := CurrSeg(w).element[k].(currPos := newPos)]
    ensures |OptPosUnits(v)| == |OptPosUnits(w)| - (if CurrSeg(w).element[k].currPos == 0 then 1 else 0)
                                + (if newPos == 0 then 1 else 0)
  {
    var rest := OptPosUnits(w) - {k};
    assert SegSize(v) == SegSize(w);
    assert forall j :: 0 <= j < SegSize(w) && j != k ==> CurrSeg(v).element[j] == CurrSeg(w).element[j];
    assert OptPosUnits(v) - {k} == rest;
    if CurrSeg(w).element[k].currPos == 0 {
      assert OptPosUnits(w) == rest + {k};
    } else {
      assert OptPosUnits(w) == rest;
    }
    if newPos == 0 {
      assert OptPosUnits(v) == rest + {k};
    } else {
      assert OptPosUnits(v) == rest;
    }
  }

  /** Only the last of two re-tags of the same unit matters. */
  lemma UpdatePosTwice(inst: DependencyInstance, h: HeadIndex, a: int, b: int)
    requires IsAddr(inst, h)
    ensures UpdatePos(UpdatePos(inst, h, a), h, b) == UpdatePos(inst, h, b)
  {
    var x := UpdatePos(UpdatePos(inst, h, a), h, b);
    var y := UpdatePos(inst, h, b);
    assert CurrSeg(x.word[h.hWord]).element == CurrSeg(y.word[h.hWord]).element;
    assert x.word[h.hWord] == y.word[h.hWord];
    assert x.word == y.word;
  }

  /** Re-tagging a unit with the tag it has changes nothing. */
  lemma UpdatePosSame(inst: DependencyInstance, h: HeadIndex)
    requires IsAddr(inst, h)
    ensures UpdatePos(inst, h, GetElement(inst, h).currPos) == inst
  {
    var x := UpdatePos(inst, h, GetElement(inst, h).currPos);
    assert CurrSeg(x.word[h.hWord]).element == CurrSeg(inst.word[h.hWord]).element;
    assert x.word[h.hWord] == inst.word[h.hWord];
    assert x.word == inst.word;
  }
}
